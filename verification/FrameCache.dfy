/**
  The live stream of internal/stream/stream.go: `readAndMux` repairs key frames, keeps the
  frames since the last key frame, and fans every frame out to the clients present;
  `addClientAndGetCache` and `removeClient` run between any two frames.

  `Stream` is the state with its history (the broadcast log and what each client got);
  `Apply` is one locked step; `StreamState` is the object that takes the steps.
 */
module FrameCache {
  import opened Common
  import opened AnnexB
  import opened AccessUnit
  import SpsParser

  type Frame = seq<Byte>
  type ClientId = nat

  /**
    A joined client: the cached frames it was handed, the frames it took from its channel
    and those still queued there, the log position it started at, and for each of these
    frames its position in the log. `refused` are the positions its full channel refused.
   */
  datatype Client = Client(capacity: nat, cached: seq<Frame>, received: seq<Frame>, queue: seq<Frame>,
                           start: nat, places: seq<nat>, refused: set<nat>)
  {
    function Seen(): seq<Frame> {
      cached + (received + queue)
    }
  }

  datatype Stream = Stream(sps: Option<Unit>, pps: Option<Unit>, cache: seq<Frame>, log: seq<Frame>,
                           clients: map<ClientId, Client>)

  datatype Step =
    | Arrive(data: Frame)
    | Join(id: ClientId, capacity: nat)
    | Leave(id: ClientId)
    | Receive(id: ClientId)

  // ---------------------------------------------------------------- one step

  function Prepended(sps: Unit, pps: Unit, data: Frame): Frame {
    Code(true) + (sps + (Code(true) + (pps + data)))
  }

  ghost function Repaired(sps: Unit, pps: Unit, data: Frame): Frame {
    if IsKey(data) && (Sps(data).None? || Pps(data).None?) then Prepended(sps, pps, data) else data
  }

  /** A non-blocking send: a full channel refuses the frame. */
  function Offer(c: Client, f: Frame, place: nat): Client {
    if |c.queue| < c.capacity then c.(queue := c.queue + [f], places := c.places + [place])
    else c.(refused := c.refused + {place})
  }

  /** A client that joins when the log has `length` frames and the cache holds its end. */
  function NewClient(cache: seq<Frame>, length: nat, capacity: nat): Client {
    var start: nat := if |cache| <= length then length - |cache| else 0;
    var places: seq<nat> := seq(|cache|, i requires i >= 0 => start + i);
    Client(capacity, cache, [], [], start, places, {})
  }

  function Take(c: Client): Client
    requires c.queue != []
  {
    c.(received := c.received + [c.queue[0]], queue := c.queue[1..])
  }

  function OfferAll(cs: map<ClientId, Client>, f: Frame, place: nat): map<ClientId, Client> {
    map id | id in cs :: Offer(cs[id], f, place)
  }

  /** Parameter sets are saved only when the frame carries both. */
  ghost function Saved(s: Stream, data: Frame): Stream {
    if Sps(data).Some? && Pps(data).Some? then s.(sps := Sps(data), pps := Pps(data)) else s
  }

  ghost function Broadcast(s: Stream, f: Frame, key: bool): Stream {
    s.(cache := if key then [f] else if s.cache != [] then s.cache + [f] else [],
       log := s.log + [f],
       clients := OfferAll(s.clients, f, |s.log|))
  }

  ghost function OnFrame(s: Stream, data: Frame): Stream {
    if data == [] then s
    else
      var s1 := Saved(s, data);
      if s1.sps.None? || s1.pps.None? then s1
      else Broadcast(s1, Repaired(s1.sps.value, s1.pps.value, data), IsKey(data))
  }

  ghost function Apply(s: Stream, step: Step): Stream {
    match step
    case Arrive(data) => OnFrame(s, data)
    case Join(id, capacity) =>
      if id in s.clients then s
      else
        s.(clients := s.clients[id := NewClient(s.cache, |s.log|, capacity)])
    case Leave(id) => s.(clients := s.clients - {id})
    case Receive(id) =>
      if id !in s.clients || s.clients[id].queue == [] then s
      else s.(clients := s.clients[id := Take(s.clients[id])])
  }

  ghost function Run(s: Stream, steps: seq<Step>): Stream
    decreases |steps|
  {
    if steps == [] then s else Apply(Run(s, steps[..|steps| - 1]), steps[|steps| - 1])
  }

  const EMPTY: Stream := Stream(None, None, [], [], map[])

  // ---------------------------------------------------------------- repaired key frames

  ghost predicate ParameterSet(u: Unit, t: Byte) {
    u != [] && NalType(u[0]) == t && CodeFree(u)
  }

  lemma ExtractedAreParameterSets(data: Frame)
    ensures Sps(data).Some? ==> ParameterSet(Sps(data).value, NAL_SPS) && IsKey(data)
    ensures Pps(data).Some? ==> ParameterSet(Pps(data).value, NAL_PPS) && IsKey(data)
  {
    hide Units;
    UnitsClean(data);
  }

  /** The units of a prepended frame start with the saved SPS and a PPS. */
  lemma PrependedUnits(sps: Unit, pps: Unit, data: Frame)
    requires ParameterSet(sps, NAL_SPS) && ParameterSet(pps, NAL_PPS)
    ensures Sps(Prepended(sps, pps, data)) == Some(sps)
    ensures Pps(Prepended(sps, pps, data)) == Some(Lead(pps + data))
  {
    var after := pps + data;
    var body, rest := Lead(after), FromCode(after);
    LeadBegins(pps, data);
    hide CodeLength, NextCode, Pieces, Units, NonEmpty, Bodies, FirstOfType, Lead, FromCode;
    NextCodeAfter(sps, true, after);
    UnitsHead(true, sps, Code(true) + after);
    UnitsOfCode(true, body, rest);
    TwoParameterSets(sps, body, NonEmpty(Bodies(Pieces(rest))));
  }

  lemma TwoParameterSets(sps: Unit, pps: Unit, us: seq<Unit>)
    requires sps != [] && NalType(sps[0]) == NAL_SPS
    requires pps != [] && NalType(pps[0]) == NAL_PPS
    ensures FirstOfType([sps] + ([pps] + us), NAL_SPS) == Some(sps)
    ensures FirstOfType([sps] + ([pps] + us), NAL_PPS) == Some(pps)
  {
    assert ([sps] + ([pps] + us))[1..] == [pps] + us;
  }

  lemma UnitsOfCode(long: bool, body: Unit, rest: seq<Byte>)
    requires body != [] && NextCode(body + rest) == |body|
    ensures NonEmpty(Bodies(Pieces(Code(long) + (body + rest)))) == [body] + NonEmpty(Bodies(Pieces(rest)))
  {
    hide CodeLength, NextCode, Pieces, NonEmpty, Bodies;
    PiecesHead(long, body, rest);
    UnitsCons(Piece(long, body), Pieces(rest));
  }

  /**
    The repaired frame's PPS is the saved one exactly when the frame starts with a start
    code that cannot take a trailing 00 from it.
   */
  lemma {:induction false} PrependedPpsExact(sps: Unit, pps: Unit, data: Frame)
    requires ParameterSet(sps, NAL_SPS) && ParameterSet(pps, NAL_PPS)
    ensures Pps(Prepended(sps, pps, data)) == Some(pps) <==> StopsBefore(pps, data)
  {
    PrependedUnits(sps, pps, data);
    var n := NextCode(pps + data);
    assert Lead(pps + data) == pps <==> n == |pps|;
    LeadStopsAt(pps, data);
  }

  // ---------------------------------------------------------------- what every run keeps

  ghost function LastKey(log: seq<Frame>): nat
    requires log != []
    ensures LastKey(log) < |log|
  {
    if |log| == 1 || IsKey(log[|log| - 1]) then |log| - 1 else LastKey(log[..|log| - 1])
  }

  /** The reference definition of the cache. */
  ghost function FromLastKey(log: seq<Frame>): seq<Frame> {
    if log == [] then [] else log[LastKey(log)..]
  }

  ghost predicate SelfContained(f: Frame) {
    Sps(f).Some? && Pps(f).Some?
  }

  /** `seen` are the frames of the log at `places`, in order and each at most once. */
  ghost predicate Placed(seen: seq<Frame>, places: seq<nat>, log: seq<Frame>) {
    && |places| == |seen|
    && (forall i :: 0 <= i < |places| ==> places[i] < |log| && log[places[i]] == seen[i])
    && (forall i, j :: 0 <= i < j < |places| ==> places[i] < places[j])
  }

  /** From its start on, every frame of the log is either seen or refused, not both. */
  ghost predicate Split(c: Client, length: nat) {
    && (forall k: nat :: c.start <= k < length ==> (k in c.places <==> k !in c.refused))
    && (forall k: nat :: k in c.places || k in c.refused ==> c.start <= k < length)
  }

  ghost predicate ClientInv(c: Client, log: seq<Frame>) {
    && c.start <= |log|
    && (c.start == |log| ==> log == [])
    && (c.start < |log| ==> IsKey(log[c.start]))
    && Placed(c.Seen(), c.places, log)
    && Split(c, |log|)
    && (c.places != [] ==> c.places[0] == c.start)
    && (c.places == [] ==> c.refused == {} || c.capacity == 0)
    && (c.refused == {} ==> c.Seen() == log[c.start..])
  }

  ghost predicate Inv(s: Stream) {
    && (s.sps.Some? <==> s.pps.Some?)
    && (s.sps.Some? ==> ParameterSet(s.sps.value, NAL_SPS) && ParameterSet(s.pps.value, NAL_PPS))
    && s.cache == FromLastKey(s.log)
    && (s.log != [] <==> s.sps.Some?)
    && (s.log != [] ==> IsKey(s.log[LastKey(s.log)]) && Sps(s.log[LastKey(s.log)]) == s.sps)
    && (s.log != [] ==> IsKey(s.log[0]))
    && (forall k :: 0 <= k < |s.log| && IsKey(s.log[k]) ==> SelfContained(s.log[k]))
    && (forall id :: id in s.clients ==> ClientInv(s.clients[id], s.log))
  }

  /** Repair keeps what kind of frame it is and makes a key frame self-contained. */
  lemma {:induction false} RepairedFacts(sps: Unit, pps: Unit, data: Frame)
    requires ParameterSet(sps, NAL_SPS) && ParameterSet(pps, NAL_PPS)
    requires Sps(data).Some? && Pps(data).Some? ==> Sps(data) == Some(sps)
    ensures var f := Repaired(sps, pps, data);
            && (IsKey(f) <==> IsKey(data))
            && (IsKey(f) ==> Sps(f) == Some(sps) && SelfContained(f))
  {
    hide Units, Prepended;
    if IsKey(data) && (Sps(data).None? || Pps(data).None?) {
      PrependedUnits(sps, pps, data);
    }
  }

  lemma LastKeyAppend(log: seq<Frame>, f: Frame)
    ensures LastKey(log + [f]) == if IsKey(f) || log == [] then |log| else LastKey(log)
  {
    hide IsKey;
    assert (log + [f])[..|log|] == log;
  }

  lemma OfferInv(c: Client, log: seq<Frame>, f: Frame)
    requires ClientInv(c, log)
    requires log == [] ==> IsKey(f)
    ensures ClientInv(Offer(c, f, |log|), log + [f])
  {
    hide IsKey, Placed;
    var d := Offer(c, f, |log|);
    SplitGrow(c, f, |log|);
    assert (log + [f])[c.start..] == log[c.start..] + [f];
    PlacedGrow(c.Seen(), c.places, log, f);
    if |c.queue| < c.capacity {
      assert d.Seen() == c.Seen() + [f];
    } else {
      assert d.Seen() == c.Seen();
    }
  }

  lemma SplitGrow(c: Client, f: Frame, length: nat)
    requires Split(c, length) && c.start <= length
    ensures Split(Offer(c, f, length), length + 1)
  {
    assert forall k: nat :: k in c.places + [length] <==> k in c.places || k == length;
  }

  lemma PlacedGrow(seen: seq<Frame>, places: seq<nat>, log: seq<Frame>, f: Frame)
    requires Placed(seen, places, log)
    ensures Placed(seen, places, log + [f])
    ensures Placed(seen + [f], places + [|log|], log + [f])
    ensures |places| == |seen|
  {
  }

  lemma OfferAllInv(cs: map<ClientId, Client>, log: seq<Frame>, f: Frame)
    requires forall id :: id in cs ==> ClientInv(cs[id], log)
    requires log == [] ==> IsKey(f)
    ensures forall id :: id in OfferAll(cs, f, |log|) ==> ClientInv(OfferAll(cs, f, |log|)[id], log + [f])
  {
    hide IsKey, ClientInv, Offer;
    forall id | id in cs
      ensures ClientInv(Offer(cs[id], f, |log|), log + [f])
    {
      OfferInv(cs[id], log, f);
    }
  }

  lemma BroadcastInv(s: Stream, before: Stream, f: Frame)
    requires Inv(before)
    requires s.log == before.log && s.cache == before.cache && s.clients == before.clients
    requires s.sps.Some? && s.pps.Some?
    requires ParameterSet(s.sps.value, NAL_SPS) && ParameterSet(s.pps.value, NAL_PPS)
    requires IsKey(f) ==> Sps(f) == s.sps && SelfContained(f)
    requires !IsKey(f) ==> s.sps == before.sps
    ensures Inv(Broadcast(s, f, IsKey(f)))
  {
    hide IsKey, Sps, Pps, SelfContained, LastKey, ParameterSet, OfferAll, ClientInv;
    var log := s.log;
    LastKeyAppend(log, f);
    if log != [] && !IsKey(f) {
      assert (log + [f])[LastKey(log)..] == log[LastKey(log)..] + [f];
    }
    OfferAllInv(s.clients, log, f);
  }

  lemma FrameInv(s: Stream, data: Frame)
    requires Inv(s)
    ensures Inv(OnFrame(s, data))
  {
    hide IsKey, Sps, Pps, SelfContained, LastKey, ParameterSet, Broadcast, Repaired, ClientInv;
    ExtractedAreParameterSets(data);
    if data != [] {
      var s1 := Saved(s, data);
      if s1.sps.Some? && s1.pps.Some? {
        RepairedFacts(s1.sps.value, s1.pps.value, data);
        BroadcastInv(s1, s, Repaired(s1.sps.value, s1.pps.value, data));
      }
    }
  }

  lemma NewClientInv(log: seq<Frame>, capacity: nat)
    requires log != [] ==> IsKey(log[LastKey(log)])
    ensures ClientInv(NewClient(FromLastKey(log), |log|, capacity), log)
  {
    hide IsKey, LastKey;
    var start := if log == [] then 0 else LastKey(log);
    var cache := FromLastKey(log);
    assert cache == log[start..] && |cache| == |log| - start;
    SuffixClientInv(log, start, capacity);
  }

  lemma SuffixClientInv(log: seq<Frame>, start: nat, capacity: nat)
    requires start <= |log| && (start == |log| ==> log == [])
    requires start < |log| ==> IsKey(log[start])
    ensures ClientInv(NewClient(log[start..], |log|, capacity), log)
  {
    hide IsKey;
    var c := NewClient(log[start..], |log|, capacity);
    assert c.Seen() == log[start..];
    assert forall i :: 0 <= i < |c.places| ==> c.places[i] == start + i;
    forall k: nat | start <= k < |log|
      ensures k in c.places
    {
      assert c.places[k - start] == k;
    }
  }

  lemma JoinInv(s: Stream, id: ClientId, capacity: nat)
    requires Inv(s)
    ensures Inv(Apply(s, Join(id, capacity)))
  {
    hide IsKey, Sps, Pps, SelfContained, ParameterSet, LastKey, ClientInv, NewClient;
    if id !in s.clients {
      NewClientInv(s.log, capacity);
    }
  }

  lemma TakeInv(c: Client, log: seq<Frame>)
    requires ClientInv(c, log) && c.queue != []
    ensures ClientInv(Take(c), log)
  {
    hide IsKey;
    var d := Take(c);
    assert d.received + d.queue == c.received + c.queue;
    assert d.Seen() == c.Seen();
  }

  lemma ReceiveInv(s: Stream, id: ClientId)
    requires Inv(s)
    ensures Inv(Apply(s, Receive(id)))
  {
    hide IsKey, Sps, Pps, SelfContained, ParameterSet, LastKey, ClientInv, Take;
    if id in s.clients && s.clients[id].queue != [] {
      TakeInv(s.clients[id], s.log);
    }
  }

  lemma {:induction false} StepInv(s: Stream, step: Step)
    requires Inv(s)
    ensures Inv(Apply(s, step))
  {
    hide IsKey, Sps, Pps, SelfContained, ParameterSet, LastKey, ClientInv, OnFrame;
    match step
    case Arrive(data) => FrameInv(s, data);
    case Join(id, capacity) => JoinInv(s, id, capacity);
    case Leave(id) =>
    case Receive(id) => ReceiveInv(s, id);
  }

  /** Every interleaving of frames, joins, leaves and reads keeps the invariant. */
  lemma {:induction false} RunInv(steps: seq<Step>)
    ensures Inv(Run(EMPTY, steps))
  {
    hide IsKey, Sps, Pps, SelfContained, ParameterSet, LastKey, ClientInv, Apply;
    if steps == [] {
    } else {
      RunInv(steps[..|steps| - 1]);
      StepInv(Run(EMPTY, steps[..|steps| - 1]), steps[|steps| - 1]);
    }
  }

  /** The cache is the broadcast log from its last key frame on. */
  lemma CacheIsLogFromLastKey(steps: seq<Step>)
    ensures var s := Run(EMPTY, steps);
            && (s.log == [] ==> s.cache == [])
            && (s.log != [] ==>
                  exists k :: 0 <= k < |s.log| && IsKey(s.log[k]) && s.cache == s.log[k..]
                              && forall j :: k < j < |s.log| ==> !IsKey(s.log[j]))
  {
    hide IsKey, Sps, Pps, SelfContained, ParameterSet, LastKey, ClientInv, Apply;
    var s := Run(EMPTY, steps);
    RunInv(steps);
    if s.log != [] {
      var k := LastKey(s.log);
      assert IsKey(s.log[k]) && s.cache == s.log[k..];
      LastKeyIsLast(s.log);
    }
  }

  lemma {:induction false} LastKeyIsLast(log: seq<Frame>)
    requires log != []
    ensures forall j :: LastKey(log) < j < |log| ==> !IsKey(log[j])
  {
    hide IsKey;
    if |log| == 1 || IsKey(log[|log| - 1]) {
    } else {
      LastKeyIsLast(log[..|log| - 1]);
    }
  }

  /**
    What the client has seen is a part of the log in order, each frame once, the first being
    the key frame it started at; from there on every frame was seen or refused, not both.
   */
  ghost predicate SeesLog(c: Client, log: seq<Frame>) {
    && c.start <= |log|
    && (log != [] ==> c.start < |log| && IsKey(log[c.start]))
    && (c.refused == {} ==> c.Seen() == log[c.start..])
    && Placed(c.Seen(), c.places, log)
    && (c.places != [] ==> c.places[0] == c.start)
    && Split(c, |log|)
  }

  /** In every run every client sees the log from a key frame on, but for the frames its full channel refused. */
  lemma {:induction false} ClientSeesLogFromKey(steps: seq<Step>, id: ClientId)
    requires id in Run(EMPTY, steps).clients
    ensures SeesLog(Run(EMPTY, steps).clients[id], Run(EMPTY, steps).log)
  {
    hide *;
    RunInv(steps);
    var s := Run(EMPTY, steps);
    ClientOf(s, id);
    ClientFacts(s.clients[id], s.log);
  }

  lemma ClientFacts(c: Client, log: seq<Frame>)
    requires ClientInv(c, log)
    ensures SeesLog(c, log)
  {
    hide IsKey, Placed, Split;
  }

  lemma ClientOf(s: Stream, id: ClientId)
    requires Inv(s) && id in s.clients
    ensures ClientInv(s.clients[id], s.log)
  {
    hide ClientInv, LastKey, IsKey, Sps, SelfContained, ParameterSet;
  }

  /** The first frame any client sees is a key frame that carries both parameter sets. */
  lemma {:induction false} FirstFrameDecodes(steps: seq<Step>, id: ClientId)
    requires id in Run(EMPTY, steps).clients
    ensures var seen := Run(EMPTY, steps).clients[id].Seen();
            seen != [] ==> IsKey(seen[0]) && Sps(seen[0]).Some? && Pps(seen[0]).Some?
  {
    hide IsKey, Sps, Pps, ParameterSet, LastKey, Apply;
    RunInv(steps);
    var s := Run(EMPTY, steps);
    var c := s.clients[id];
    assert ClientInv(c, s.log);
    if c.Seen() != [] {
      assert IsKey(s.log[c.start]);
      assert SelfContained(s.log[c.start]);
    }
  }

  /** Every logged or cached key frame carries both parameter sets, and the newest one the saved SPS. */
  lemma {:induction false} KeyFramesSelfContained(steps: seq<Step>, k: nat)
    requires k < |Run(EMPTY, steps).log| && IsKey(Run(EMPTY, steps).log[k])
    ensures var s := Run(EMPTY, steps);
            && Sps(s.log[k]).Some? && Pps(s.log[k]).Some?
            && (k == |s.log| - 1 ==> Sps(s.log[k]) == s.sps)
            && s.cache != [] && Sps(s.cache[0]) == s.sps
  {
    hide IsKey, Sps, Pps, ParameterSet, Apply, ClientInv;
    RunInv(steps);
    assert SelfContained(Run(EMPTY, steps).log[k]);
  }

  // ---------------------------------------------------------------- every frame that arrives is broadcast

  /** The non-empty frames of a run, in order. */
  function Arrived(steps: seq<Step>): seq<Frame>
    decreases |steps|
  {
    if steps == [] then []
    else
      var last := steps[|steps| - 1];
      Arrived(steps[..|steps| - 1]) + (if last.Arrive? && last.data != [] then [last.data] else [])
  }

  /** The latest of the frames that carries both parameter sets. */
  ghost predicate IsLatestComplete(fs: seq<Frame>, j: int) {
    && 0 <= j < |fs| && SelfContained(fs[j])
    && forall m :: j < m < |fs| ==> !SelfContained(fs[m])
  }

  /**
    What is broadcast for the last of the frames: its own bytes, or for a key frame that lacks
    a parameter set, the latest sets that came together, each behind 00 00 00 01, and then all
    its bytes.
   */
  ghost predicate BroadcastFor(fs: seq<Frame>, f: Frame) {
    && fs != []
    && var data := fs[|fs| - 1];
       if IsKey(data) && !SelfContained(data)
       then
         exists j :: IsLatestComplete(fs, j)
           && f == [0, 0, 0, 1] + Sps(fs[j]).value + [0, 0, 0, 1] + Pps(fs[j]).value + data
       else f == data
  }

  ghost predicate LogOf(fs: seq<Frame>, log: seq<Frame>, first: nat) {
    && first <= |fs| && |log| == |fs| - first
    && (forall k :: 0 <= k < first ==> !SelfContained(fs[k]))
    && (first < |fs| ==> SelfContained(fs[first]))
    && (forall i :: 0 <= i < |log| ==> BroadcastFor(fs[..first + i + 1], log[i]))
  }

  /** The saved parameter sets are those of the latest frame that carried both. */
  ghost predicate SavedFrom(s: Stream, fs: seq<Frame>, first: nat) {
    if first == |fs| then s.sps.None? && s.pps.None?
    else exists j :: IsLatestComplete(fs, j) && s.sps == Sps(fs[j]) && s.pps == Pps(fs[j])
  }

  lemma LogOfAppend(fs: seq<Frame>, log: seq<Frame>, first: nat, data: Frame, f: Frame)
    requires LogOf(fs, log, first) && (first == |fs| ==> SelfContained(data))
    requires BroadcastFor(fs + [data], f)
    ensures LogOf(fs + [data], log + [f], first)
  {
    hide SelfContained, BroadcastFor;
    var gs, l := fs + [data], log + [f];
    forall i | 0 <= i < |l|
      ensures BroadcastFor(gs[..first + i + 1], l[i])
    {
      if i < |log| {
        assert gs[..first + i + 1] == fs[..first + i + 1];
      } else {
        assert gs[..first + i + 1] == gs;
      }
    }
  }

  lemma LogOfQuiet(fs: seq<Frame>, log: seq<Frame>, data: Frame)
    requires LogOf(fs, log, |fs|) && !SelfContained(data)
    ensures LogOf(fs + [data], log, |fs| + 1)
  {
    hide SelfContained, BroadcastFor;
  }

  /** One arriving frame: the log grows by exactly what is to be broadcast for it. */
  lemma ArrivalLogs(s: Stream, fs: seq<Frame>, first: nat, data: Frame) returns (next: nat)
    requires LogOf(fs, s.log, first) && SavedFrom(s, fs, first) && data != []
    ensures var s' := OnFrame(s, data);
            LogOf(fs + [data], s'.log, next) && SavedFrom(s', fs + [data], next)
  {
    hide IsKey, Sps, Pps, OfferAll, LogOf;
    var gs := fs + [data];
    var s' := OnFrame(s, data);
    if SelfContained(data) {
      next := first;
      assert IsLatestComplete(gs, |fs|);
      assert BroadcastFor(gs, data);
      assert first <= |fs| by { FirstInRange(fs, s.log, first); }
      LogOfAppend(fs, s.log, first, data, data);
    } else if first == |fs| {
      next := first + 1;
      LogOfQuiet(fs, s.log, data);
    } else {
      next := first;
      FirstInRange(fs, s.log, first);
      var j :| IsLatestComplete(fs, j) && s.sps == Sps(fs[j]) && s.pps == Pps(fs[j]);
      assert IsLatestComplete(gs, j);
      var f := Repaired(s.sps.value, s.pps.value, data);
      PrependedBytes(s.sps.value, s.pps.value, data);
      assert BroadcastFor(gs, f);
      LogOfAppend(fs, s.log, first, data, f);
    }
  }

  lemma FirstInRange(fs: seq<Frame>, log: seq<Frame>, first: nat)
    requires LogOf(fs, log, first)
    ensures first <= |fs|
  {
    hide SelfContained, BroadcastFor;
  }

  lemma PrependedBytes(sps: Unit, pps: Unit, data: Frame)
    ensures Prepended(sps, pps, data) == [0, 0, 0, 1] + sps + [0, 0, 0, 1] + pps + data
  {
  }

  /**
    In every run the log has one frame for every frame that arrived, from the first that
    carried both parameter sets on: nothing is left out, added or reordered. `first` is the
    number of frames that came before.
   */
  lemma {:induction false} EveryFrameLogged(steps: seq<Step>) returns (first: nat)
    ensures LogOf(Arrived(steps), Run(EMPTY, steps).log, first)
    ensures SavedFrom(Run(EMPTY, steps), Arrived(steps), first)
    decreases |steps|
  {
    hide SelfContained, BroadcastFor, LogOf, SavedFrom, OnFrame, NewClient, Take;
    if steps == [] {
      first := 0;
      NothingLogged();
    } else {
      var pre, last := steps[..|steps| - 1], steps[|steps| - 1];
      first := EveryFrameLogged(pre);
      if last.Arrive? && last.data != [] {
        first := ArrivalLogs(Run(EMPTY, pre), Arrived(pre), first, last.data);
      } else {
        assert Arrived(steps) == Arrived(pre);
        SavedSame(Run(EMPTY, pre), Run(EMPTY, steps), Arrived(pre), first, last);
      }
    }
  }

  lemma NothingLogged()
    ensures LogOf([], EMPTY.log, 0) && SavedFrom(EMPTY, [], 0)
  {
  }

  lemma SavedSame(s: Stream, s': Stream, fs: seq<Frame>, first: nat, step: Step)
    requires s' == Apply(s, step) && !(step.Arrive? && step.data != [])
    ensures s'.log == s.log && (SavedFrom(s, fs, first) <==> SavedFrom(s', fs, first))
  {
    hide Sps, Pps, IsKey, SelfContained;
  }

  // ---------------------------------------------------------------- what each client gets

  /** A client that joins gets the cache at once. */
  lemma JoinGetsCache(s: Stream, id: ClientId, capacity: nat)
    requires id !in s.clients
    ensures var s' := Apply(s, Join(id, capacity));
            && s'.clients.Keys == s.clients.Keys + {id}
            && s'.clients[id].cached == s.cache && s'.clients[id].capacity == capacity
            && s'.clients[id].received == [] && s'.clients[id].queue == []
  {
  }

  /**
    A broadcast frame goes to the end of every channel that is not full, and to no other;
    a read takes the oldest frame of the channel; leaving ends all of it.
   */
  lemma ChannelsServed(s: Stream, data: Frame, id: ClientId)
    requires id in s.clients
    ensures var c := s.clients[id];
            var s' := Apply(s, Arrive(data));
            && id in s'.clients
            && (|s'.log| == |s.log| ==> s'.clients[id] == c)
            && (|s'.log| > |s.log| ==>
                  && s'.clients[id].queue ==
                     (if |c.queue| < c.capacity then c.queue + [s'.log[|s.log|]] else c.queue)
                  && s'.clients[id].received == c.received && s'.clients[id].cached == c.cached
                  && s'.clients[id].capacity == c.capacity)
    ensures var c := s.clients[id];
            var s' := Apply(s, Receive(id));
            && (c.queue == [] ==> s' == s)
            && (c.queue != [] ==>
                  && id in s'.clients
                  && s'.clients[id].received == c.received + [c.queue[0]]
                  && s'.clients[id].queue == c.queue[1..])
    ensures Apply(s, Leave(id)).clients.Keys == s.clients.Keys - {id}
  {
    hide Sps, Pps, IsKey, Repaired;
  }

  /** A client refuses frames only once it was given as many as its channel holds. */
  ghost predicate RefusalsEarned(c: Client) {
    |c.queue| <= c.capacity && (c.refused != {} ==> |c.received| + |c.queue| >= c.capacity)
  }

  /** So a channel with room for everything broadcast since the client joined loses nothing. */
  lemma {:induction false} RoomyChannelLosesNothing(steps: seq<Step>, id: ClientId)
    requires id in Run(EMPTY, steps).clients
    ensures var s := Run(EMPTY, steps);
            var c := s.clients[id];
            && RefusalsEarned(c) && c.start <= |s.log|
            && (|s.log| - c.start - |c.cached| <= c.capacity ==> c.Seen() == s.log[c.start..])
    decreases |steps|
  {
    hide IsKey, Sps, Pps, SelfContained, ParameterSet, LastKey, OnFrame;
    RunInv(steps);
    EarnedRun(steps, id);
    var s := Run(EMPTY, steps);
    var c := s.clients[id];
    if c.refused != {} {
      var k :| k in c.refused;
      PlacesFit(c, |s.log|, k);
    }
  }

  /** Seen and refused positions fit between the start and the end of the log. */
  lemma PlacesFit(c: Client, length: nat, k: nat)
    requires Split(c, length) && c.start <= length && k in c.refused && |c.places| == |c.Seen()|
    requires forall i, j :: 0 <= i < j < |c.places| ==> c.places[i] < c.places[j]
    ensures |c.Seen()| < length - c.start
  {
    var all := RangeSet(c.start, length);
    RangeSize(c.start, length);
    PlaceSetSize(c.places);
    var seen := PlaceSet(c.places);
    assert seen <= all - {k};
    SubsetSize(seen, all - {k});
  }

  ghost function RangeSet(low: nat, high: nat): set<nat>
    requires low <= high
    decreases high - low
  {
    if low == high then {} else {low} + RangeSet(low + 1, high)
  }

  lemma {:induction false} RangeSize(low: nat, high: nat)
    requires low <= high
    ensures |RangeSet(low, high)| == high - low && forall k: nat :: k in RangeSet(low, high) <==> low <= k < high
    decreases high - low
  {
    if low == high {
    } else {
      RangeSize(low + 1, high);
    }
  }

  ghost function PlaceSet(places: seq<nat>): set<nat> {
    set k | k in places
  }

  lemma {:induction false} PlaceSetSize(places: seq<nat>)
    requires forall i, j :: 0 <= i < j < |places| ==> places[i] < places[j]
    ensures |PlaceSet(places)| == |places|
  {
    if places == [] {
    } else {
      var n := |places| - 1;
      PlaceSetSize(places[..n]);
      assert places[n] !in PlaceSet(places[..n]);
      assert PlaceSet(places) == PlaceSet(places[..n]) + {places[n]};
    }
  }

  lemma SubsetSize(a: set<nat>, b: set<nat>)
    requires a <= b
    ensures |a| <= |b|
  {
    assert b == a + (b - a);
  }

  lemma {:induction false} EarnedRun(steps: seq<Step>, id: ClientId)
    requires id in Run(EMPTY, steps).clients
    ensures RefusalsEarned(Run(EMPTY, steps).clients[id])
    decreases |steps|
  {
    if steps == [] {
    } else {
      var pre, last := steps[..|steps| - 1], steps[|steps| - 1];
      var s := Run(EMPTY, pre);
      if id in s.clients {
        EarnedRun(pre, id);
      }
      EarnedStep(s, last, id);
    }
  }

  lemma EarnedStep(s: Stream, step: Step, id: ClientId)
    requires id in Apply(s, step).clients && (id in s.clients ==> RefusalsEarned(s.clients[id]))
    ensures RefusalsEarned(Apply(s, step).clients[id])
  {
    hide Sps, Pps, IsKey, Repaired;
  }

  // ---------------------------------------------------------------- the PPS of the cached key frame

  /** The data of the last key frame that was broadcast. */
  ghost function LastKeyData(steps: seq<Step>): Frame
    decreases |steps|
  {
    if steps == [] then []
    else
      var last := steps[|steps| - 1];
      if last.Arrive? && last.data != [] && IsKey(last.data) && Run(EMPTY, steps).log != [] then last.data
      else LastKeyData(steps[..|steps| - 1])
  }

  /** The key frame made of `data` carries the PPS: it came with both sets, or repair keeps the PPS whole. */
  ghost predicate KeepsPps(pps: Unit, data: Frame)
    requires pps != []
  {
    SelfContained(data) || StopsBefore(pps, data)
  }

  lemma {:induction false} RepairedPps(sps: Unit, pps: Unit, data: Frame)
    requires ParameterSet(sps, NAL_SPS) && ParameterSet(pps, NAL_PPS) && IsKey(data)
    requires SelfContained(data) ==> Pps(data) == Some(pps)
    ensures Pps(Repaired(sps, pps, data)) == Some(pps) <==> KeepsPps(pps, data)
  {
    hide Units, Prepended, StopsBefore;
    if !SelfContained(data) {
      PrependedPpsExact(sps, pps, data);
    }
  }

  /** How one frame changes saved parameter sets and cached key frame. */
  lemma FrameHead(s: Stream, data: Frame)
    requires Inv(s)
    ensures var s' := OnFrame(s, data);
            && (data != [] && IsKey(data) && s'.log != [] ==>
                  && s'.pps.Some? && s'.pps.value != []
                  && s'.cache != [] && (Pps(s'.cache[0]) == s'.pps <==> KeepsPps(s'.pps.value, data)))
            && (!(data != [] && IsKey(data) && s'.log != []) && s'.log != [] ==>
                  s.log != [] && s'.pps == s.pps && s.cache != [] && s'.cache != [] && s'.cache[0] == s.cache[0])
  {
    hide Sps, Pps, Units, Repaired, LastKey, ClientInv, KeepsPps, OfferAll;
    ExtractedAreParameterSets(data);
    var s1 := Saved(s, data);
    if data != [] && IsKey(data) && s1.sps.Some? && s1.pps.Some? {
      RepairedPps(s1.sps.value, s1.pps.value, data);
    }
  }

  /**
    In every run the key frame that heads the cache carries the saved PPS exactly if it came
    with both parameter sets, or began with a start code that leaves the PPS whole.
   */
  lemma {:induction false} CachedPpsExact(steps: seq<Step>)
    requires Run(EMPTY, steps).log != []
    ensures var s := Run(EMPTY, steps);
            && s.pps.Some? && s.pps.value != [] && s.cache != []
            && (Pps(s.cache[0]) == s.pps <==> KeepsPps(s.pps.value, LastKeyData(steps)))
    decreases |steps|
  {
    hide Sps, Pps, IsKey, Inv, OnFrame, KeepsPps, NewClient, Take;
    if steps == [] {
    } else {
      var pre := steps[..|steps| - 1];
      var before := Run(EMPTY, pre);
      RunInv(pre);
      var last := steps[|steps| - 1];
      if last.Arrive? {
        FrameHead(before, last.data);
      }
      if before.log != [] {
        CachedPpsExact(pre);
      }
    }
  }

  /** If every arriving frame begins with a 4-byte start code, the cached key frame carries the saved PPS. */
  lemma {:induction false} LongCodesKeepPps(steps: seq<Step>)
    requires forall k :: 0 <= k < |steps| && steps[k].Arrive? && steps[k].data != [] ==> CodeLength(steps[k].data) == 4
    ensures var s := Run(EMPTY, steps);
            s.log != [] ==> s.cache != [] && s.pps.Some? && Pps(s.cache[0]) == s.pps
  {
    hide Sps, Pps, IsKey, Run, CodeLength, LastKeyData;
    if Run(EMPTY, steps).log != [] {
      CachedPpsExact(steps);
      LastKeyDataArrived(steps);
    }
  }

  lemma {:induction false} LastKeyDataArrived(steps: seq<Step>)
    ensures LastKeyData(steps) == [] || exists k :: 0 <= k < |steps| && steps[k] == Arrive(LastKeyData(steps))
    decreases |steps|
  {
    hide IsKey, Run;
    if steps == [] {
    } else {
      var pre := steps[..|steps| - 1];
      LastKeyDataArrived(pre);
      var last := steps[|steps| - 1];
      assert last.Arrive? ==> steps[|steps| - 1] == Arrive(last.data);
      if k :| 0 <= k < |pre| && pre[k] == Arrive(LastKeyData(pre)) {
        assert steps[k] == Arrive(LastKeyData(pre));
      }
    }
  }

  // ---------------------------------------------------------------- the object

  /** A client's buffered channel. */
  datatype Channel = Channel(capacity: nat, queue: seq<Frame>)

  function Sent(c: Channel, f: Frame): Channel {
    if |c.queue| < c.capacity then c.(queue := c.queue + [f]) else c
  }

  function SentAll(cs: map<ClientId, Channel>, f: Frame): map<ClientId, Channel> {
    map id | id in cs :: Sent(cs[id], f)
  }

  ghost predicate Matches(cs: map<ClientId, Channel>, hs: map<ClientId, Client>) {
    && cs.Keys == hs.Keys
    && forall id :: id in cs ==> cs[id] == Channel(hs[id].capacity, hs[id].queue)
  }

  lemma SentMatches(cs: map<ClientId, Channel>, hs: map<ClientId, Client>, f: Frame, place: nat)
    requires Matches(cs, hs)
    ensures Matches(SentAll(cs, f), OfferAll(hs, f, place))
  {
  }

  /** The SPS of a frame that carries both parameter sets can be parsed to its end. */
  ghost predicate Parses(data: Frame) {
    Sps(data).Some? && Pps(data).Some? ==> SpsParser.Parse(Sps(data).value).Some?
  }

  /**
    `streamState` together with the parameter sets `readAndMux` carries from one frame to
    the next. `history` is the state with its log; every method takes one step of it.
   */
  class StreamState {
    var sps: Option<Unit>
    var pps: Option<Unit>
    var gopCache: seq<Frame>
    var clients: map<ClientId, Channel>
    var videoWidth: nat
    var videoHeight: nat
    ghost var history: Stream

    /** The stored size is always that of the saved SPS. */
    ghost predicate Valid()
      reads this
    {
      && sps == history.sps && pps == history.pps && gopCache == history.cache
      && Matches(clients, history.clients)
      && (sps.Some? <==> pps.Some?)
      && (sps.Some? ==> SpsParser.Parse(sps.value) == Some((videoWidth, videoHeight)))
    }

    constructor ()
      ensures Valid() && history == EMPTY
    {
      sps, pps, gopCache, clients := None, None, [], map[];
      videoWidth, videoHeight := 0, 0;
      history := EMPTY;
    }

    method AddClientAndGetCache(ch: ClientId, capacity: nat) returns (cached: seq<Frame>)
      requires Valid() && ch !in clients
      modifies this
      ensures Valid() && history == Apply(old(history), Join(ch, capacity))
      ensures cached == history.clients[ch].cached
    {
      clients := clients[ch := Channel(capacity, [])];
      cached := gopCache;
      history := Apply(history, Join(ch, capacity));
    }

    method RemoveClient(ch: ClientId)
      requires Valid()
      modifies this
      ensures Valid() && history == Apply(old(history), Leave(ch))
    {
      clients := clients - {ch};
      history := Apply(history, Leave(ch));
    }

    /** The client's end of the channel: None when it would block. */
    method ReceiveFrame(ch: ClientId) returns (f: Option<Frame>)
      requires Valid() && ch in clients
      modifies this
      ensures Valid() && history == Apply(old(history), Receive(ch))
      ensures f.Some? ==> history.clients[ch].received == old(history.clients[ch].received) + [f.value]
      ensures f.None? ==> history == old(history)
    {
      f := None;
      var c := clients[ch];
      if c.queue != [] {
        f := Some(c.queue[0]);
        clients := clients[ch := c.(queue := c.queue[1..])];
      }
      history := Apply(history, Receive(ch));
    }

    /** The loop over the clients, in whatever order the map yields them. */
    method SendAll(f: Frame)
      modifies this`clients
      ensures clients == SentAll(old(clients), f)
    {
      var todo := clients.Keys;
      while todo != {}
        invariant todo <= clients.Keys == old(clients.Keys)
        invariant forall id :: id in clients ==>
                    clients[id] == if id in todo then old(clients)[id] else Sent(old(clients)[id], f)
      {
        var ch :| ch in todo;
        var c := clients[ch];
        if |c.queue| < c.capacity {
          clients := clients[ch := c.(queue := c.queue + [f])];
        }
        todo := todo - {ch};
      }
    }

    /** One iteration of `readAndMux` on a frame just read. */
    method HandleFrame(data: Frame)
      requires Valid() && Parses(data)
      modifies this
      ensures Valid() && history == Apply(old(history), Arrive(data))
    {
      hide IsKey, Sps, Pps, OfferAll, SentAll, Matches, SpsParser.Parse;
      if data == [] {
        return;
      }
      var newSps, newPps := ExtractSPSPPS(data);
      if newSps.Some? && newPps.Some? {
        sps, pps := newSps, newPps;
        videoWidth, videoHeight := SpsParser.ParseSPS(sps.value);
      }
      history := Saved(history, data);
      if sps.None? || pps.None? {
        return;
      }
      var key := IsKeyFrame(data);
      var f := data;
      if key && (newSps.None? || newPps.None?) {
        f := [0, 0, 0, 1] + (sps.value + ([0, 0, 0, 1] + (pps.value + data)));
      }
      if key {
        gopCache := [f];
      } else if |gopCache| > 0 {
        gopCache := gopCache + [f];
      }
      SentMatches(clients, history.clients, f, |history.log|);
      history := Broadcast(history, f, key);
      SendAll(f);
    }
  }

  // ---------------------------------------------------------------- the wire framing

  /** Frames as the device sends them: 8 bytes of time stamp, 4 of length, then the data. */
  function Deframe(b: seq<Byte>): seq<Frame>
    decreases |b|
  {
    if |b| < 12 || |b| < 12 + Uint32(b[8..12]) then []
    else [b[12..12 + Uint32(b[8..12])]] + Deframe(b[12 + Uint32(b[8..12])..])
  }

  datatype Packet = Packet(pts: seq<Byte>, data: Frame)

  function Enframe(ps: seq<Packet>): seq<Byte> {
    if ps == [] then []
    else ps[0].pts + (Uint32Bytes(|ps[0].data|) + (ps[0].data + Enframe(ps[1..])))
  }

  function Payloads(ps: seq<Packet>): seq<Frame> {
    if ps == [] then [] else [ps[0].data] + Payloads(ps[1..])
  }

  /** Whole packets come out unchanged, and a truncated one at the end is dropped. */
  lemma {:induction false} DeframeEnframe(ps: seq<Packet>, partial: seq<Byte>)
    requires forall k :: 0 <= k < |ps| ==> |ps[k].pts| == 8 && |ps[k].data| < UINT32
    requires |partial| < 12 || |partial| < 12 + Uint32(partial[8..12])
    ensures Deframe(Enframe(ps) + partial) == Payloads(ps)
  {
    if ps == [] {
      assert Enframe(ps) + partial == partial;
    } else {
      var p := ps[0];
      var rest := Enframe(ps[1..]) + partial;
      assert Enframe(ps) + partial == p.pts + (Uint32Bytes(|p.data|) + (p.data + rest));
      hide Uint32, Uint32Bytes, Deframe, Enframe;
      DeframeStep(p.pts, p.data, rest);
      DeframeEnframe(ps[1..], partial);
    }
  }

  lemma DeframeStep(pts: seq<Byte>, data: Frame, rest: seq<Byte>)
    requires |pts| == 8 && |data| < UINT32
    ensures Deframe(pts + (Uint32Bytes(|data|) + (data + rest))) == [data] + Deframe(rest)
  {
    hide Uint32, Uint32Bytes;
    var b := pts + (Uint32Bytes(|data|) + (data + rest));
    assert b[8..12] == Uint32Bytes(|data|);
    Uint32RoundTrip(|data|);
    assert b[12..12 + |data|] == data;
    assert b[12 + |data|..] == rest;
  }

  ghost function Arrivals(fs: seq<Frame>): seq<Step> {
    if fs == [] then [] else Arrivals(fs[..|fs| - 1]) + [Arrive(fs[|fs| - 1])]
  }

  lemma RunArrival(s: Stream, fs: seq<Frame>, f: Frame)
    ensures Run(s, Arrivals(fs + [f])) == Apply(Run(s, Arrivals(fs)), Arrive(f))
  {
    hide Apply;
    assert (fs + [f])[..|fs|] == fs;
    assert (Arrivals(fs) + [Arrive(f)])[..|Arrivals(fs)|] == Arrivals(fs);
  }

  /** `readAndMux` on a connection that delivers `input` and closes. */
  method ReadAndMux(s: StreamState, input: seq<Byte>)
    requires s.Valid() && forall f :: f in Deframe(input) ==> Parses(f)
    modifies s
    ensures s.Valid() && s.history == Run(old(s.history), Arrivals(Deframe(input)))
  {
    hide Uint32, Apply, Run, Arrivals, Matches, Parses, SpsParser.Parse;
    var rest := input;
    ghost var done: seq<Frame> := [];
    RunNothing(s.history);
    while |rest| >= 12
      invariant s.Valid()
      invariant s.history == Run(old(s.history), Arrivals(done))
      invariant Deframe(input) == done + Deframe(rest)
      decreases |rest|
    {
      var size := Uint32(rest[8..12]);
      if |rest| < 12 + size {
        assert Deframe(rest) == [] && done + [] == done;
        return;
      }
      var data := rest[12..12 + size];
      assert Deframe(rest) == [data] + Deframe(rest[12 + size..]);
      assert data in Deframe(input);
      s.HandleFrame(data);
      RunArrival(old(s.history), done, data);
      rest := rest[12 + size..];
      done := done + [data];
    }
    assert Deframe(rest) == [] && done + [] == done;
  }

  lemma RunNothing(s: Stream)
    ensures Run(s, Arrivals([])) == s
  {
    assert Arrivals([]) == [];
  }
}
