/**
  The TCP port pool of internal/supervisor/port_allocator.go, which hands every device a
  block of ten ports, and the ports derived from a block elsewhere.
 */
module PortAllocator {
  import opened Common

  /** The allocator's state: ports in use, and the same the other way round. */
  datatype Pool = Pool(minPort: int, maxPort: int, used: map<int, Serial>, bySerial: map<Serial, int>)

  datatype Op = Take(serial: Serial) | Return(serial: Serial)

  predicate Slot(p: Pool, port: int) {
    p.minPort <= port <= p.maxPort && (port - p.minPort) % 10 == 0
  }

  /** The linear search for a free block, from `port` on. */
  function Search(p: Pool, port: int): Option<int>
    decreases p.maxPort - port
  {
    if port > p.maxPort then None
    else if port !in p.used then Some(port)
    else Search(p, port + 10)
  }

  function Bind(p: Pool, serial: Serial, port: int): Pool {
    p.(used := p.used[port := serial], bySerial := p.bySerial[serial := port])
  }

  function AfterAllocate(p: Pool, serial: Serial): Pool {
    if serial in p.bySerial then p
    else match Search(p, p.minPort)
         case Some(port) => Bind(p, serial, port)
         case None => p
  }

  function AfterFree(p: Pool, serial: Serial): Pool {
    if serial !in p.bySerial then p
    else p.(used := p.used - {p.bySerial[serial]}, bySerial := p.bySerial - {serial})
  }

  function Apply(p: Pool, op: Op): Pool {
    match op
    case Take(serial) => AfterAllocate(p, serial)
    case Return(serial) => AfterFree(p, serial)
  }

  function Run(p: Pool, ops: seq<Op>): Pool
    decreases |ops|
  {
    if ops == [] then p else Apply(Run(p, ops[..|ops| - 1]), ops[|ops| - 1])
  }

  function Fresh(minPort: int, maxPort: int): Pool {
    Pool(minPort, maxPort, map[], map[])
  }

  /** The two maps are inverse to each other and only hold slots. */
  ghost predicate Valid(p: Pool) {
    && (forall port :: port in p.used ==>
          Slot(p, port) && p.used[port] in p.bySerial && p.bySerial[p.used[port]] == port)
    && (forall s :: s in p.bySerial ==> p.bySerial[s] in p.used && p.used[p.bySerial[s]] == s)
  }

  /** The search finds the least free slot, and nothing exactly when every slot is taken. */
  lemma {:induction false} SearchIsLeast(p: Pool, from: int)
    requires p.minPort <= from && (from - p.minPort) % 10 == 0
    ensures Search(p, from).None? <==> forall port :: Slot(p, port) && from <= port ==> port in p.used
    ensures Search(p, from).Some? ==>
              var port := Search(p, from).value;
              && Slot(p, port) && from <= port && port !in p.used
              && forall q :: Slot(p, q) && from <= q < port ==> q in p.used
    decreases p.maxPort - from
  {
    if from <= p.maxPort && from in p.used {
      SearchIsLeast(p, from + 10);
      assert forall q :: Slot(p, q) && from <= q && q != from ==> from + 10 <= q;
    } else if from <= p.maxPort {
      assert Slot(p, from);
    }
  }

  lemma ApplyValid(p: Pool, op: Op)
    requires Valid(p)
    ensures Valid(Apply(p, op))
  {
    hide Search;
    SearchIsLeast(p, p.minPort);
  }

  lemma {:induction false} RunValid(minPort: int, maxPort: int, ops: seq<Op>)
    ensures var p := Run(Fresh(minPort, maxPort), ops);
            Valid(p) && p.minPort == minPort && p.maxPort == maxPort
  {
    hide Search, Valid;
    if ops == [] {
      FreshValid(minPort, maxPort);
    } else {
      RunValid(minPort, maxPort, ops[..|ops| - 1]);
      ApplyValid(Run(Fresh(minPort, maxPort), ops[..|ops| - 1]), ops[|ops| - 1]);
    }
  }

  lemma FreshValid(minPort: int, maxPort: int)
    ensures Valid(Fresh(minPort, maxPort))
  {
  }

  /** Freeing a port that was just allocated restores the pool. */
  lemma FreeUndoesAllocate(p: Pool, serial: Serial)
    requires Valid(p) && serial !in p.bySerial
    ensures AfterFree(AfterAllocate(p, serial), serial) == p
  {
    hide Search;
    SearchIsLeast(p, p.minPort);
    var q := AfterFree(AfterAllocate(p, serial), serial);
    assert q.used == p.used && q.bySerial == p.bySerial;
  }

  // ---------------------------------------------------------------- how many devices fit

  /** How many blocks the range holds. */
  function Slots(p: Pool): nat {
    if p.maxPort < p.minPort then 0 else (p.maxPort - p.minPort) / 10 + 1
  }

  lemma SizeOfSubset<T>(a: set<T>, b: set<T>)
    requires a <= b
    ensures |a| <= |b|
  {
    assert b == a + (b - a);
  }

  ghost function FirstSlots(p: Pool, n: nat): set<int> {
    if n == 0 then {} else FirstSlots(p, n - 1) + {p.minPort + 10 * (n - 1)}
  }

  lemma {:induction false} FirstSlotsSize(p: Pool, n: nat)
    ensures |FirstSlots(p, n)| == n
    ensures forall q :: q in FirstSlots(p, n) <==> p.minPort <= q < p.minPort + 10 * n && (q - p.minPort) % 10 == 0
  {
    if n == 0 {
    } else {
      FirstSlotsSize(p, n - 1);
      forall q
        ensures q in FirstSlots(p, n) <==> p.minPort <= q < p.minPort + 10 * n && (q - p.minPort) % 10 == 0
      {
        LastSlot(q - p.minPort, n);
      }
    }
  }

  lemma LastSlot(d: int, n: nat)
    requires n > 0
    ensures 0 <= d < 10 * n && d % 10 == 0 <==> (0 <= d < 10 * (n - 1) && d % 10 == 0) || d == 10 * (n - 1)
  {
    assert 10 * (n - 1) % 10 == 0;
  }

  lemma SlotsAreFirst(p: Pool)
    ensures forall q :: q in FirstSlots(p, Slots(p)) <==> Slot(p, q)
  {
    FirstSlotsSize(p, Slots(p));
  }

  lemma SomeElement<T>(a: set<T>) returns (x: T)
    requires a != {}
    ensures x in a
  {
    x :| x in a;
  }

  /** As many serials have a port as ports are in use. */
  lemma {:induction false} InverseSizes(used: map<int, Serial>, bySerial: map<Serial, int>)
    requires forall port :: port in used ==> used[port] in bySerial && bySerial[used[port]] == port
    requires forall s :: s in bySerial ==> bySerial[s] in used && used[bySerial[s]] == s
    ensures |used.Keys| == |bySerial.Keys|
    decreases |used|
  {
    if |used.Keys| == 0 {
      assert bySerial.Keys == {};
    } else {
      var port := SomeElement(used.Keys);
      InverseSizes(used - {port}, bySerial - {used[port]});
      assert (used - {port}).Keys == used.Keys - {port};
      assert (bySerial - {used[port]}).Keys == bySerial.Keys - {used[port]};
    }
  }

  /** A new device is refused exactly when as many devices as there are blocks have a port. */
  lemma ExhaustedExact(p: Pool)
    requires Valid(p)
    ensures |p.bySerial.Keys| <= Slots(p)
    ensures Search(p, p.minPort).None? <==> |p.bySerial.Keys| == Slots(p)
  {
    hide Search;
    SearchIsLeast(p, p.minPort);
    InverseSizes(p.used, p.bySerial);
    var all := FirstSlots(p, Slots(p));
    FirstSlotsSize(p, Slots(p));
    SlotsAreFirst(p);
    assert p.used.Keys <= all;
    SizeOfSubset(p.used.Keys, all);
    if |p.used.Keys| == Slots(p) {
      SameSize(p.used.Keys, all);
    }
    if Search(p, p.minPort).None? {
      forall q | q in all
        ensures q in p.used.Keys
      {
        assert Slot(p, q);
      }
      assert p.used.Keys == all;
    }
  }

  lemma SameSize(a: set<int>, b: set<int>)
    requires a <= b && |a| == |b|
    ensures a == b
  {
    assert b == a + (b - a);
  }

  // ---------------------------------------------------------------- derived ports

  /** HTTP stream, scrcpy video, agent or WDA, MJPEG, iOS tunnel info and userspace ports. */
  const OFFSETS: set<int> := {0, 2000, 3000, 3001, 4000, 5000}

  /** No two derived ports of the pool's devices coincide. */
  ghost predicate NoClash(p: Pool) {
    forall s, t, a, b :: s in p.bySerial && t in p.bySerial && a in OFFSETS && b in OFFSETS && (s != t || a != b)
                         ==> p.bySerial[s] + a != p.bySerial[t] + b
  }

  lemma NarrowNoClash(p: Pool)
    requires Valid(p) && p.maxPort - p.minPort < 1000
    ensures NoClash(p)
  {
    forall s, t, a, b | s in p.bySerial && t in p.bySerial && a in OFFSETS && b in OFFSETS && (s != t || a != b)
      ensures p.bySerial[s] + a != p.bySerial[t] + b
    {
      assert Slot(p, p.bySerial[s]) && Slot(p, p.bySerial[t]);
      assert (p.bySerial[s] - p.bySerial[t]) % 10 == 0;
      assert p.used[p.bySerial[s]] == s && p.used[p.bySerial[t]] == t;
    }
  }

  function Name(k: nat): Serial {
    seq(k, _ => 'd')
  }

  /** Connect `n` devices. */
  function Fill(n: nat): seq<Op> {
    if n == 0 then [] else Fill(n - 1) + [Take(Name(n - 1))]
  }

  lemma {:induction false} SearchSkips(p: Pool, k: nat, n: nat)
    requires k <= n && p.minPort + 10 * n <= p.maxPort
    requires forall i :: k <= i < n ==> p.minPort + 10 * i in p.used
    requires p.minPort + 10 * n !in p.used
    ensures Search(p, p.minPort + 10 * k) == Some(p.minPort + 10 * n)
    decreases n - k
  {
    if k == n {
    } else {
      SearchSkips(p, k + 1, n);
      assert p.minPort + 10 * k + 10 == p.minPort + 10 * (k + 1);
    }
  }

  /** The first `n` devices have the first `n` blocks. */
  ghost predicate Filled(p: Pool, n: nat) {
    && (forall i :: 0 <= i < n ==> Name(i) in p.bySerial && p.bySerial[Name(i)] == p.minPort + 10 * i)
    && (forall s :: s in p.bySerial ==> |s| < n)
    && (forall i :: 0 <= i < n ==> p.minPort + 10 * i in p.used)
    && (forall q :: q in p.used ==> q < p.minPort + 10 * n)
  }

  lemma FillNext(p: Pool, n: nat)
    requires Filled(p, n) && p.minPort + 10 * n <= p.maxPort
    ensures Filled(AfterAllocate(p, Name(n)), n + 1)
  {
    hide Search;
    assert |Name(n)| == n;
    SearchSkips(p, 0, n);
    assert AfterAllocate(p, Name(n)) == Bind(p, Name(n), p.minPort + 10 * n);
    forall i | 0 <= i < n
      ensures Name(i) != Name(n)
    {
      assert |Name(i)| == i;
    }
  }

  /** The k-th device to connect gets the k-th block. */
  lemma {:induction false} FillTakesSlots(minPort: int, maxPort: int, n: nat)
    requires n == 0 || minPort + 10 * (n - 1) <= maxPort
    ensures var p := Run(Fresh(minPort, maxPort), Fill(n));
            p.minPort == minPort && p.maxPort == maxPort && Filled(p, n)
  {
    hide Search, Filled;
    if n == 0 {
      assert Filled(Fresh(minPort, maxPort), 0) by {
        NothingFilled(Fresh(minPort, maxPort));
      }
    } else {
      FillTakesSlots(minPort, maxPort, n - 1);
      assert Fill(n)[..|Fill(n - 1)|] == Fill(n - 1);
      FillNext(Run(Fresh(minPort, maxPort), Fill(n - 1)), n - 1);
    }
  }

  lemma NothingFilled(p: Pool)
    requires p.used == map[] && p.bySerial == map[]
    ensures Filled(p, 0)
  {
  }

  /** Derived ports never clash, in any run, exactly when the range is narrower than 1000. */
  lemma DerivedPortsDistinct(minPort: int, maxPort: int)
    ensures (forall ops :: NoClash(Run(Fresh(minPort, maxPort), ops))) <==> maxPort - minPort < 1000
  {
    hide Search, NoClash, Run, Fill;
    if maxPort - minPort < 1000 {
      forall ops
        ensures NoClash(Run(Fresh(minPort, maxPort), ops))
      {
        RunValid(minPort, maxPort, ops);
        NarrowNoClash(Run(Fresh(minPort, maxPort), ops));
      }
    } else {
      FillTakesSlots(minPort, maxPort, 101);
      WideClash(Run(Fresh(minPort, maxPort), Fill(101)), minPort);
    }
  }

  lemma WideClash(p: Pool, minPort: int)
    requires Name(0) in p.bySerial && p.bySerial[Name(0)] == minPort + 10 * 0
    requires Name(100) in p.bySerial && p.bySerial[Name(100)] == minPort + 10 * 100
    ensures !NoClash(p)
  {
    assert |Name(0)| == 0 && |Name(100)| == 100;
    assert 3000 in OFFSETS && 2000 in OFFSETS;
    assert p.bySerial[Name(0)] + 3000 == p.bySerial[Name(100)] + 2000;
  }

  // ---------------------------------------------------------------- the object

  class PortAllocator {
    const minPort: int
    const maxPort: int
    var used: map<int, Serial>
    var bySerial: map<Serial, int>

    function View(): Pool
      reads this
    {
      Pool(minPort, maxPort, used, bySerial)
    }

    constructor (minPort: int, maxPort: int)
      ensures View() == Fresh(minPort, maxPort)
    {
      this.minPort, this.maxPort := minPort, maxPort;
      used, bySerial := map[], map[];
    }

    /** `NewPortAllocator`: null for an empty range. */
    static method New(minPort: int, maxPort: int) returns (pa: PortAllocator?)
      ensures pa == null <==> minPort >= maxPort
      ensures pa != null ==> fresh(pa) && pa.View() == Fresh(minPort, maxPort)
    {
      if minPort >= maxPort {
        return null;
      }
      pa := new PortAllocator(minPort, maxPort);
    }

    method Allocate(serial: Serial) returns (port: Option<int>)
      modifies this
      ensures View() == AfterAllocate(old(View()), serial)
      ensures port.Some? ==> serial in bySerial && bySerial[serial] == port.value
      ensures port.None? ==> View() == old(View())
      ensures port.None? <==> serial !in old(bySerial) && forall q :: Slot(View(), q) ==> q in old(used)
      ensures serial !in old(bySerial) && port.Some? ==>
                Slot(View(), port.value) && port.value !in old(used)
                && forall q :: Slot(View(), q) && q < port.value ==> q in old(used)
    {
      hide Search;
      if serial in bySerial {
        return Some(bySerial[serial]);
      }
      ghost var p := View();
      SearchIsLeast(p, minPort);
      var candidate := minPort;
      SearchStep(p, candidate);
      while candidate <= maxPort
        invariant View() == p
        invariant Search(p, candidate) == Search(p, minPort)
        decreases maxPort - candidate
      {
        SearchStep(p, candidate);
        if candidate !in used {
          used := used[candidate := serial];
          bySerial := bySerial[serial := candidate];
          return Some(candidate);
        }
        candidate := candidate + 10;
      }
      SearchStep(p, candidate);
      return None;
    }

    method Free(serial: Serial)
      modifies this
      ensures View() == AfterFree(old(View()), serial)
    {
      if serial !in bySerial {
        return;
      }
      var port := bySerial[serial];
      used := used - {port};
      bySerial := bySerial - {serial};
    }

    /** 0 when the serial has no port. */
    method PortFor(serial: Serial) returns (port: int)
      ensures port == if serial in bySerial then bySerial[serial] else 0
    {
      port := if serial in bySerial then bySerial[serial] else 0;
    }
  }

  lemma SearchStep(p: Pool, port: int)
    ensures Search(p, port) == if port > p.maxPort then None
                               else if port !in p.used then Some(port) else Search(p, port + 10)
  {
  }
}
