/**
  Device tracking: internal/adb/tracker.go compares each device-list snapshot of a
  connection with the one before and emits events, which internal/app/app.go replays into
  the registry of internal/registry/registry.go. Events are taken to arrive and property
  fetches to succeed.
 */
module Tracker {
  import opened Common

  /** Device states by serial. */
  type Snapshot = map<Serial, string>

  datatype Kind = Connected | Unauthorized | Offline | Disconnected

  datatype DeviceEvent = DeviceEvent(serial: Serial, kind: Kind)

  function KindOf(state: string): Option<Kind> {
    match state
    case "device" => Some(Connected)
    case "unauthorized" => Some(Unauthorized)
    case "offline" => Some(Offline)
    case _ => None
  }

  /** The event that a change from `prev` to `cur` calls for. */
  function EventFor(prev: Snapshot, cur: Snapshot, s: Serial): Option<Kind> {
    if s in cur then if s in prev && prev[s] == cur[s] then None else KindOf(cur[s])
    else if s in prev then Some(Disconnected) else None
  }

  /** The events called for, each once, in any order. */
  ghost predicate IsDiff(prev: Snapshot, cur: Snapshot, events: seq<DeviceEvent>) {
    && (forall e :: e in events <==> EventFor(prev, cur, e.serial) == Some(e.kind))
    && (forall i, j :: 0 <= i < j < |events| ==> events[i].serial != events[j].serial)
  }

  /** Distinct serials, all from `done`, with the events called for. */
  ghost predicate DiffOver(prev: Snapshot, cur: Snapshot, done: set<Serial>, events: seq<DeviceEvent>) {
    && (forall e :: e in events <==> e.serial in done && EventFor(prev, cur, e.serial) == Some(e.kind))
    && (forall i, j :: 0 <= i < j < |events| ==> events[i].serial != events[j].serial)
  }

  lemma DiffOverStep(prev: Snapshot, cur: Snapshot, done: set<Serial>, events: seq<DeviceEvent>, s: Serial)
    requires DiffOver(prev, cur, done, events) && s !in done
    ensures var k := EventFor(prev, cur, s);
            DiffOver(prev, cur, done + {s}, if k.Some? then events + [DeviceEvent(s, k.value)] else events)
  {
    hide EventFor;
    forall i | 0 <= i < |events|
      ensures events[i].serial != s
    {
      assert events[i] in events;
    }
  }

  /** `diff`: first over the current snapshot, then over the old one, in map order. */
  method Diff(cur: Snapshot, prev: Snapshot) returns (events: seq<DeviceEvent>)
    ensures IsDiff(prev, cur, events)
  {
    events := [];
    var todo := cur.Keys;
    ghost var done: set<Serial> := {};
    while todo != {}
      invariant done + todo == cur.Keys && done !! todo
      invariant DiffOver(prev, cur, done, events)
    {
      hide DiffOver;
      var serial :| serial in todo;
      DiffOverStep(prev, cur, done, events, serial);
      var state := cur[serial];
      var existed := serial in prev;
      if state == "device" {
        if !existed || prev[serial] != "device" {
          events := events + [DeviceEvent(serial, Connected)];
        }
      } else if state == "unauthorized" {
        if !existed || prev[serial] != "unauthorized" {
          events := events + [DeviceEvent(serial, Unauthorized)];
        }
      } else if state == "offline" {
        if !existed || prev[serial] != "offline" {
          events := events + [DeviceEvent(serial, Offline)];
        }
      }
      todo, done := todo - {serial}, done + {serial};
    }
    var gone := prev.Keys;
    while gone != {}
      invariant gone <= prev.Keys
      invariant done == cur.Keys + (prev.Keys - gone)
      invariant DiffOver(prev, cur, done, events)
    {
      hide DiffOver;
      var serial :| serial in gone;
      if serial !in cur {
        DiffOverStep(prev, cur, done, events, serial);
        events := events + [DeviceEvent(serial, Disconnected)];
      }
      gone, done := gone - {serial}, done + {serial};
    }
  }

  /** Which events a snapshot gives, said on the states: one for each state reached, and for each serial gone. */
  lemma DiffExact(prev: Snapshot, cur: Snapshot, events: seq<DeviceEvent>, s: Serial)
    requires IsDiff(prev, cur, events)
    ensures DeviceEvent(s, Connected) in events <==>
            s in cur && cur[s] == "device" && !(s in prev && prev[s] == "device")
    ensures DeviceEvent(s, Unauthorized) in events <==>
            s in cur && cur[s] == "unauthorized" && !(s in prev && prev[s] == "unauthorized")
    ensures DeviceEvent(s, Offline) in events <==>
            s in cur && cur[s] == "offline" && !(s in prev && prev[s] == "offline")
    ensures DeviceEvent(s, Disconnected) in events <==> s in prev && s !in cur
  {
  }

  // ---------------------------------------------------------------- the registry

  /** The registered serials after the events: a second connect and an unknown disconnect are refused. */
  function Replay(registry: set<Serial>, events: seq<DeviceEvent>): set<Serial>
    decreases |events|
  {
    if events == [] then registry
    else
      var r := Replay(registry, events[..|events| - 1]);
      var e := events[|events| - 1];
      match e.kind
      case Connected => r + {e.serial}
      case Disconnected => r - {e.serial}
      case _ => r
  }

  lemma {:induction false} ReplayOther(registry: set<Serial>, events: seq<DeviceEvent>, s: Serial)
    requires forall k :: 0 <= k < |events| && events[k].serial == s ==> events[k].kind !in {Connected, Disconnected}
    ensures s in Replay(registry, events) <==> s in registry
    decreases |events|
  {
    if events == [] {
    } else {
      ReplayOther(registry, events[..|events| - 1], s);
    }
  }

  lemma {:induction false} ReplayOne(registry: set<Serial>, events: seq<DeviceEvent>, k: nat)
    requires k < |events| && events[k].kind in {Connected, Disconnected}
    requires forall j :: k < j < |events| ==> events[j].serial != events[k].serial
    ensures events[k].serial in Replay(registry, events) <==> events[k].kind == Connected
    decreases |events|
  {
    if k == |events| - 1 {
    } else {
      ReplayOne(registry, events[..|events| - 1], k);
    }
  }

  /** What one snapshot's events do to the registry, whatever their order. */
  lemma ReplayDiff(registry: set<Serial>, prev: Snapshot, cur: Snapshot, events: seq<DeviceEvent>, s: Serial)
    requires IsDiff(prev, cur, events)
    ensures s in Replay(registry, events) <==>
            match EventFor(prev, cur, s)
            case Some(Connected) => true
            case Some(Disconnected) => false
            case _ => s in registry
  {
    hide Replay, EventFor;
    var k := EventFor(prev, cur, s);
    if k == Some(Connected) || k == Some(Disconnected) {
      assert DeviceEvent(s, k.value) in events;
      var i :| 0 <= i < |events| && events[i] == DeviceEvent(s, k.value);
      ReplayOne(registry, events, i);
    } else {
      forall i | 0 <= i < |events| && events[i].serial == s
        ensures events[i].kind !in {Connected, Disconnected}
      {
        assert events[i] in events;
      }
      ReplayOther(registry, events, s);
    }
  }

  // ---------------------------------------------------------------- whole connections

  /** The events of a connection: for each snapshot those against the one before. */
  ghost predicate IsHistory(snapshots: seq<Snapshot>, batches: seq<seq<DeviceEvent>>) {
    && |batches| == |snapshots|
    && forall i :: 0 <= i < |snapshots| ==> IsDiff(Before(snapshots, i), snapshots[i], batches[i])
  }

  function Before(snapshots: seq<Snapshot>, i: nat): Snapshot
    requires i <= |snapshots|
  {
    if i == 0 then map[] else snapshots[i - 1]
  }

  function ReplayAll(batches: seq<seq<DeviceEvent>>): set<Serial>
    decreases |batches|
  {
    if batches == [] then {} else Replay(ReplayAll(batches[..|batches| - 1]), batches[|batches| - 1])
  }

  predicate Ready(snapshot: Snapshot, s: Serial) {
    s in snapshot && snapshot[s] == "device"
  }

  /** In the last snapshot, and ready in some snapshot since it last appeared. */
  ghost predicate Online(snapshots: seq<Snapshot>, s: Serial) {
    exists j :: 0 <= j < |snapshots| && Ready(snapshots[j], s)
                && forall i :: j <= i < |snapshots| ==> s in snapshots[i]
  }

  lemma OnlineStep(snapshots: seq<Snapshot>, cur: Snapshot, s: Serial)
    ensures Online(snapshots + [cur], s) <==> s in cur && (cur[s] == "device" || Online(snapshots, s))
  {
    var all := snapshots + [cur];
    if Online(all, s) {
      var j :| 0 <= j < |all| && Ready(all[j], s) && forall i :: j <= i < |all| ==> s in all[i];
      assert s in all[|all| - 1];
      if j < |snapshots| {
        assert Ready(snapshots[j], s);
        assert forall i :: j <= i < |snapshots| ==> snapshots[i] == all[i];
      }
    }
    if s in cur && cur[s] == "device" {
      assert Ready(all[|snapshots|], s);
    } else if s in cur && Online(snapshots, s) {
      var j :| 0 <= j < |snapshots| && Ready(snapshots[j], s) && forall i :: j <= i < |snapshots| ==> s in snapshots[i];
      assert Ready(all[j], s);
    }
  }

  lemma OnlineInLast(snapshots: seq<Snapshot>, s: Serial)
    ensures Online(snapshots, s) ==> s in Before(snapshots, |snapshots|)
    ensures snapshots != [] && Ready(snapshots[|snapshots| - 1], s) ==> Online(snapshots, s)
  {
  }

  /**
    After any snapshots of one connection, for every order in which the maps yield their
    entries, the registry holds exactly the serials of the last snapshot that were ready
    in some snapshot since they last appeared.
   */
  lemma {:induction false} RegistryIsOnline(snapshots: seq<Snapshot>, batches: seq<seq<DeviceEvent>>, s: Serial)
    requires IsHistory(snapshots, batches)
    ensures s in ReplayAll(batches) <==> Online(snapshots, s)
    decreases |snapshots|
  {
    hide IsDiff, Replay, Online;
    if snapshots == [] {
      NeverOnline(s);
    } else {
      var n := |snapshots| - 1;
      var init, cur := snapshots[..n], snapshots[n];
      assert snapshots == init + [cur];
      assert IsHistory(init, batches[..n]) by {
        assert forall i :: 0 <= i < n ==> Before(init, i) == Before(snapshots, i);
      }
      RegistryIsOnline(init, batches[..n], s);
      var prev := Before(snapshots, n);
      assert prev == Before(init, n);
      ReplayDiff(ReplayAll(batches[..n]), prev, cur, batches[n], s);
      OnlineStep(init, cur, s);
      OnlineInLast(init, s);
    }
  }

  lemma NeverOnline(s: Serial)
    ensures !Online([], s)
  {
  }

  // ---------------------------------------------------------------- the object

  class Tracker {
    var previous: Snapshot

    constructor ()
      ensures previous == map[]
    {
      previous := map[];
    }

    /** One turn of the loop in `stream`. */
    method OnSnapshot(current: Snapshot) returns (events: seq<DeviceEvent>)
      modifies this
      ensures previous == current && IsDiff(old(previous), current, events)
    {
      hide IsDiff;
      events := Diff(current, previous);
      previous := map[];
      var todo := current.Keys;
      while todo != {}
        invariant todo <= current.Keys
        invariant previous == map k | k in current && k !in todo :: current[k]
      {
        var k :| k in todo;
        previous := previous[k := current[k]];
        todo := todo - {k};
      }
    }

    /** `evictAll`: disconnects for the ready devices only, and a clean slate. */
    method EvictAll() returns (events: seq<DeviceEvent>)
      modifies this
      ensures previous == map[]
      ensures forall e :: e in events <==> e.kind == Disconnected && Ready(old(previous), e.serial)
      ensures forall i, j :: 0 <= i < j < |events| ==> events[i].serial != events[j].serial
    {
      events := [];
      var todo := previous.Keys;
      while todo != {}
        invariant todo <= previous.Keys && previous == old(previous)
        invariant forall e :: e in events <==> e.kind == Disconnected && Ready(previous, e.serial) && e.serial !in todo
        invariant forall i, j :: 0 <= i < j < |events| ==> events[i].serial != events[j].serial
      {
        var serial :| serial in todo;
        if previous[serial] == "device" {
          events := events + [DeviceEvent(serial, Disconnected)];
        }
        todo := todo - {serial};
      }
      previous := map[];
    }
  }

  /** A lost connection leaves registered exactly the devices that were not ready at that moment. */
  lemma {:induction false} EvictLeavesUnready(registry: set<Serial>, previous: Snapshot, events: seq<DeviceEvent>,
                                              s: Serial)
    requires forall e :: e in events <==> e.kind == Disconnected && Ready(previous, e.serial)
    ensures s in Replay(registry, events) <==> s in registry && !Ready(previous, s)
  {
    hide Replay;
    if Ready(previous, s) {
      assert DeviceEvent(s, Disconnected) in events;
      var k := LastOf(events, s);
      ReplayOne(registry, events, k);
    } else {
      assert forall k :: 0 <= k < |events| ==> events[k] in events;
      ReplayOther(registry, events, s);
    }
  }

  lemma {:induction false} LastOf(events: seq<DeviceEvent>, s: Serial) returns (k: nat)
    requires DeviceEvent(s, Disconnected) in events && forall e :: e in events ==> e.kind == Disconnected
    ensures k < |events| && events[k] == DeviceEvent(s, Disconnected)
    ensures forall j :: k < j < |events| ==> events[j].serial != s
    decreases |events|
  {
    k := |events| - 1;
    if events[k].serial != s {
      assert forall e :: e in events[..k] ==> e in events;
      k := LastOf(events[..k], s);
    } else {
      assert events[k] in events;
    }
  }
}
