/** Serialised packet I/O: a sorted queue of requests kept as an intrusive circular list
    through the request packets (IRPs), and the dispatch of one packet at a time. */
module DeviceQueue {
  const DEVICE_QUEUE: nat := 0x60
  const QUEUE_ENTRY: nat := 0x18
  const LIST_IN_IRP: nat := 0x70
  const KEY_IN_LIST: nat := 0x10
  const NODE_SIZE: nat := 0x18
  const NO_KEY: nat := 0xFFFF_FFFF

  // ---- the reference: a stable priority queue --------------------------------

  /** A 32-bit number. */
  type Key = k: nat | k <= 0xFFFF_FFFF

  /** A submission; the stamp is its number, counted from 0. */
  datatype Packet = Packet(irp: nat, key: Key, stamp: nat)

  /** The key is given through an optional pointer to a 32-bit number. */
  datatype SortKey = Absent | Given(value: Key)

  function KeyOf(k: SortKey): Key { if k.Absent? then NO_KEY else k.value }

  datatype State = State(queue: seq<Packet>, current: nat, busy: bool,
                         submitted: seq<Packet>, started: seq<Packet>)

  /** Smaller keys first, and among equal keys the earlier submission. */
  predicate Before(p: Packet, q: Packet) { p.key < q.key || (p.key == q.key && p.stamp < q.stamp) }

  predicate Ordered(q: seq<Packet>) { forall i, j :: 0 <= i < j < |q| ==> Before(q[i], q[j]) }

  /** The number of packets in front of the first one with a larger key. */
  function Position(q: seq<Packet>, key: nat): (i: nat)
    ensures i <= |q|
    ensures forall j :: 0 <= j < i ==> q[j].key <= key
    ensures i < |q| ==> q[i].key > key
  {
    if q == [] || q[0].key > key then 0 else 1 + Position(q[1..], key)
  }

  function Insert(q: seq<Packet>, p: Packet): seq<Packet> {
    var i := Position(q, p.key);
    q[..i] + [p] + q[i..]
  }

  function StartStep(s: State, irp: nat, key: SortKey): State {
    var p := Packet(irp, KeyOf(key), |s.submitted|);
    if s.current == 0 && !s.busy then
      s.(current := irp, busy := true, submitted := s.submitted + [p], started := s.started + [p])
    else
      s.(queue := Insert(s.queue, p), submitted := s.submitted + [p])
  }

  function NextStep(s: State): State {
    if s.queue == [] then s.(current := 0, busy := false)
    else s.(current := s.queue[0].irp, queue := s.queue[1..], started := s.started + [s.queue[0]])
  }

  /** Stamps are submission numbers, nothing is lost or started twice, the queue is
      ordered, and packets wait only behind a current one. */
  ghost predicate Inv(s: State) {
    && (forall i :: 0 <= i < |s.submitted| ==> s.submitted[i].stamp == i && s.submitted[i].irp != 0)
    && multiset(s.submitted) == multiset(s.started) + multiset(s.queue)
    && Ordered(s.queue)
    && (s.busy <==> s.current != 0)
    && (s.queue != [] ==> s.busy)
    && (s.busy ==> s.started != [] && s.current == s.started[|s.started| - 1].irp)
  }

  lemma InsertKeepsOrder(q: seq<Packet>, p: Packet)
    requires Ordered(q) && forall r :: r in q ==> r.stamp < p.stamp
    ensures Ordered(Insert(q, p)) && multiset(Insert(q, p)) == multiset(q) + multiset{p}
  {
    var i := Position(q, p.key);
    assert q == q[..i] + q[i..];
    hide Before, Position;
    forall a, b | 0 <= a < b < |Insert(q, p)| ensures Before(Insert(q, p)[a], Insert(q, p)[b]) {
      InsertedPair(q, p, a, b);
    }
  }

  lemma InsertedPair(q: seq<Packet>, p: Packet, a: nat, b: nat)
    requires Ordered(q) && (forall r :: r in q ==> r.stamp < p.stamp) && a < b < |Insert(q, p)|
    ensures Before(Insert(q, p)[a], Insert(q, p)[b])
  {
    var i := Position(q, p.key);
    if a == i {
      assert b > i + 1 ==> Before(q[i], q[b - 1]);
    } else if b == i {
      assert q[a] in q;
    } else {
      assert Before(q[if a < i then a else a - 1], q[if b < i then b else b - 1]);
    }
  }

  lemma QueuedWasSubmitted(s: State, p: Packet)
    requires Inv(s) && p in s.queue
    ensures p.stamp < |s.submitted| && s.submitted[p.stamp] == p
  {
    assert multiset(s.queue)[p] > 0;
    assert p in multiset(s.submitted);
    var i :| 0 <= i < |s.submitted| && s.submitted[i] == p;
  }

  lemma StartKeeps(s: State, irp: nat, key: SortKey)
    requires Inv(s) && irp != 0
    ensures Inv(StartStep(s, irp, key))
  {
    hide Insert, Ordered;
    var p := Packet(irp, KeyOf(key), |s.submitted|);
    assert multiset(s.submitted + [p]) == multiset(s.submitted) + multiset{p};
    if s.busy {
      forall r | r in s.queue ensures r.stamp < p.stamp {
        QueuedWasSubmitted(s, r);
      }
      InsertKeepsOrder(s.queue, p);
    } else {
      assert multiset(s.started + [p]) == multiset(s.started) + multiset{p};
    }
  }

  lemma WaitingMeansBusy(s: State)
    requires Inv(s) && s.queue != []
    ensures s.busy && s.current != 0 && s.queue[0].irp != 0
  {
    QueuedWasSubmitted(s, s.queue[0]);
  }

  lemma NextKeeps(s: State)
    requires Inv(s)
    ensures Inv(NextStep(s))
  {
    if s.queue != [] {
      var p := s.queue[0];
      assert s.queue == [p] + s.queue[1..];
      QueuedWasSubmitted(s, p);
    }
  }

  /** What a start takes comes before everything that goes on waiting. */
  lemma NextTakesLeast(s: State, p: Packet)
    requires Inv(s) && s.queue != [] && p in s.queue && p != s.queue[0]
    ensures Before(s.queue[0], p) && p in NextStep(s).queue && s.queue[0] !in NextStep(s).queue
  {
    var i :| 0 <= i < |s.queue| && s.queue[i] == p;
    assert s.queue[1..][i - 1] == p;
    forall j | 0 <= j < |s.queue[1..]| ensures s.queue[1..][j] != s.queue[0] {
      assert s.queue[1..][j] == s.queue[j + 1];
    }
  }

  /** Each submission is started once or waits once. */
  lemma StartedAtMostOnce(s: State, p: Packet)
    requires Inv(s) && p in s.submitted
    ensures multiset(s.started)[p] + multiset(s.queue)[p] == 1
  {
    StampsAreUnique(s.submitted, p);
    assert multiset(s.submitted)[p] == 1;
  }

  lemma {:induction false} StampsAreUnique(submitted: seq<Packet>, p: Packet)
    requires forall i :: 0 <= i < |submitted| ==> submitted[i].stamp == i
    requires p in submitted
    ensures multiset(submitted)[p] == 1
  {
    var n := |submitted| - 1;
    var rest, last := submitted[..n], submitted[n];
    assert submitted == rest + [last];
    if p in rest {
      StampsAreUnique(rest, p);
    }
  }

  /** A packet with a key stands behind those with smaller or equal keys and in front of
      the larger ones. */
  lemma InsertedBetween(q: seq<Packet>, p: Packet, r: Packet) returns (i: nat)
    requires Ordered(q) && r in q
    ensures i < |Insert(q, p)| && Insert(q, p)[i] == p && Insert(q, p)[..i] + Insert(q, p)[i + 1..] == q
    ensures r in Insert(q, p)[..i] <==> r.key <= p.key
    ensures r in Insert(q, p)[i + 1..] <==> r.key > p.key
  {
    hide Position, Insert, Before;
    i := Position(q, p.key);
    InsertedAt(q, p);
    LargerBehind(q, p.key);
    var k :| 0 <= k < |q| && q[k] == r;
    if k < i {
      assert q[..i][k] == r;
    } else {
      assert q[i..][k - i] == r;
    }
  }

  lemma InsertedAt(q: seq<Packet>, p: Packet)
    ensures var i, after := Position(q, p.key), Insert(q, p);
            && i < |after| && after[i] == p && after[..i] == q[..i] && after[i + 1..] == q[i..]
            && after[..i] + after[i + 1..] == q
  {
    hide Position;
  }

  lemma LargerBehind(q: seq<Packet>, key: nat)
    requires Ordered(q)
    ensures forall j :: Position(q, key) <= j < |q| ==> q[j].key > key
  {
    var i := Position(q, key);
    hide Position;
    forall j | i <= j < |q| ensures q[j].key > key {
      assert j > i ==> Before(q[i], q[j]);
    }
  }

  /** A packet without a key goes behind all that wait, and counts as the largest key. */
  lemma NoKeyGoesLast(s: State, irp: nat)
    requires Inv(s) && s.busy
    ensures StartStep(s, irp, Absent).queue == s.queue + [Packet(irp, 0xFFFF_FFFF, |s.submitted|)]
  {
    var i := Position(s.queue, 0xFFFF_FFFF);
    assert s.queue[..|s.queue|] == s.queue;
  }

  /** A submission to an idle device starts at once, and any other one waits. */
  lemma StartMeans(s: State, irp: nat, key: SortKey)
    requires Inv(s)
    ensures var t := StartStep(s, irp, key);
            var p := Packet(irp, if key.Absent? then 0xFFFF_FFFF else key.value, |s.submitted|);
            && t.submitted == s.submitted + [p] && t.busy && t.current == (if s.busy then s.current else irp)
            && t.started == (if s.busy then s.started else s.started + [p])
            && t.queue == (if s.busy then Insert(s.queue, p) else [])
  {
  }

  /** The device is idle after StartNextPacket exactly if nothing waited; else it runs the
      packet that waited first. */
  lemma NextMeans(s: State)
    requires Inv(s)
    ensures var t := NextStep(s);
            && (!t.busy <==> s.queue == []) && (t.current == 0 <==> s.queue == [])
            && t.submitted == s.submitted && t.queue == (if s.queue == [] then [] else s.queue[1..])
            && (s.queue == [] ==> t.started == s.started)
            && (s.queue != [] ==> t.current == s.queue[0].irp && t.started == s.started + [s.queue[0]])
  {
    if s.queue != [] {
      QueuedWasSubmitted(s, s.queue[0]);
    }
  }

  // ---- calls and nested calls ------------------------------------------------

  /** A call, with the calls the driver's StartIo routine makes if this one runs it. */
  datatype Call = Start(irp: nat, key: SortKey, inner: seq<Call>) | Next(inner: seq<Call>)

  function Size(calls: seq<Call>): nat {
    if calls == [] then 0 else 1 + Size(calls[0].inner) + Size(calls[1..])
  }

  lemma {:induction false} SizeOfConcat(a: seq<Call>, b: seq<Call>)
    ensures Size(a + b) == Size(a) + Size(b)
  {
    if a == [] {
      assert a + b == b;
    } else {
      SizeOfConcat(a[1..], b);
      assert (a + b)[1..] == a[1..] + b;
    }
  }

  function Step(s: State, c: Call): State {
    match c
    case Start(irp, key, _) => StartStep(s, irp, key)
    case Next(_) => NextStep(s)
  }

  predicate Dispatches(s: State, c: Call) {
    if c.Start? then s.current == 0 && !s.busy else s.queue != []
  }

  /** The device object: where its list head is and whether its driver has a StartIo. */
  datatype Device = Device(head: nat, startIo: bool)

  function Nested(d: Device, s: State, c: Call): seq<Call> {
    if d.startIo && Dispatches(s, c) then c.inner else []
  }

  /** The calls one after the other, those of a StartIo routine right after its start. */
  function Exec(d: Device, s: State, calls: seq<Call>): State
    decreases Size(calls)
  {
    if calls == [] then s
    else
      SizeOfConcat(Nested(d, s, calls[0]), calls[1..]);
      Exec(d, Step(s, calls[0]), Nested(d, s, calls[0]) + calls[1..])
  }

  /** The StartIo routine of a driver that has one runs exactly when a packet is started. */
  lemma CallbackIffStarted(d: Device, s: State, c: Call)
    requires Inv(s)
    ensures Nested(d, s, c) == if d.startIo && |Step(s, c).started| > |s.started| then c.inner else []
  {
  }

  /** While A runs, C is submitted without a key and then B with one: then the device runs
      B, and C, and is idle. */
  lemma ThreePackets(d: Device, a: nat, b: nat, c: nat, k: Key)
    requires !d.startIo && 0 < a < b < c && k < 0xFFFF_FFFF
    ensures var s := Exec(d, State([], 0, false, [], []),
                          [Start(a, Given(k), []), Start(c, Absent, []), Start(b, Given(k), [])]);
            var t := Exec(d, s, [Next([])]);
            var u := Exec(d, t, [Next([])]);
            && s.current == a && t.current == b && u.current == c && !Exec(d, u, [Next([])]).busy
  {
    var calls := [Start(a, Given(k), []), Start(c, Absent, []), Start(b, Given(k), [])];
    ThreeStarts(a, b, c, k);
    hide StartStep, NextStep;
    ThreeCalls(d, State([], 0, false, [], []), calls);
    var s := StartStep(StartStep(StartStep(State([], 0, false, [], []), a, Given(k)), c, Absent), b, Given(k));
    OneCall(d, s, Next([]));
    OneCall(d, NextStep(s), Next([]));
    OneCall(d, NextStep(NextStep(s)), Next([]));
    NextTwice(s);
  }

  lemma ThreeStarts(a: nat, b: nat, c: nat, k: Key)
    requires 0 < a < b < c && k < 0xFFFF_FFFF
    ensures var s := StartStep(StartStep(StartStep(State([], 0, false, [], []), a, Given(k)), c, Absent), b, Given(k));
            s.current == a && s.queue == [Packet(b, k, 2), Packet(c, 0xFFFF_FFFF, 1)]
  {
    var p, q := Packet(a, k, 0), Packet(c, 0xFFFF_FFFF, 1);
    assert StartStep(State([], 0, false, [], []), a, Given(k)) == State([], a, true, [p], [p]);
    assert StartStep(State([], a, true, [p], [p]), c, Absent) == State([q], a, true, [p, q], [p]);
  }

  lemma ThreeCalls(d: Device, s: State, calls: seq<Call>)
    requires !d.startIo && |calls| == 3
    ensures Exec(d, s, calls) == Step(Step(Step(s, calls[0]), calls[1]), calls[2])
  {
    hide Step;
    var s1 := Step(s, calls[0]);
    assert calls[1..] == [calls[1], calls[2]] && calls[1..][1..] == [calls[2]] && [calls[2]][1..] == [];
    assert [] + calls[1..] == calls[1..] && [] + [calls[2]] == [calls[2]];
    assert Exec(d, Step(s1, calls[1]), [calls[2]]) == Step(Step(s1, calls[1]), calls[2]);
  }

  lemma NextTwice(s: State)
    requires |s.queue| == 2
    ensures NextStep(s).current == s.queue[0].irp && NextStep(NextStep(s)).current == s.queue[1].irp
    ensures !NextStep(NextStep(NextStep(s))).busy
  {
  }

  // ---- no packet waits for an idle device ------------------------------------

  /** The calls in the order in which they take effect, nested ones in their places. */
  function Flat(d: Device, s: State, calls: seq<Call>): seq<Call>
    decreases Size(calls)
  {
    if calls == [] then []
    else
      SizeOfConcat(Nested(d, s, calls[0]), calls[1..]);
      [calls[0]] + Flat(d, Step(s, calls[0]), Nested(d, s, calls[0]) + calls[1..])
  }

  function Starts(flat: seq<Call>): nat {
    if flat == [] then 0 else (if flat[0].Start? then 1 else 0) + Starts(flat[1..])
  }

  /** A server that is never idle while somebody waits: how many it has, running or
      waiting, after these arrivals (Start) and completions (Next). */
  function Load(n: nat, flat: seq<Call>): nat
    decreases |flat|
  {
    if flat == [] then n
    else if flat[0].Start? then Load(n + 1, flat[1..])
    else Load(if n == 0 then 0 else n - 1, flat[1..])
  }

  function InDevice(s: State): nat { |s.queue| + if s.busy then 1 else 0 }

  /** Over every legal run the device has what such a server has: all but one wait, all
      others were started. */
  lemma {:induction false} WorkConserving(d: Device, s: State, calls: seq<Call>)
    requires Inv(s) && Legal(d, s, calls)
    ensures var t, flat := Exec(d, s, calls), Flat(d, s, calls);
            var n := Load(InDevice(s), flat);
            && InDevice(t) == n && |t.queue| == (if n == 0 then 0 else n - 1) && (t.busy <==> n > 0)
            && |t.submitted| == |s.submitted| + Starts(flat) && |t.started| + |t.queue| == |t.submitted|
    decreases Size(calls)
  {
    hide Inv, Step, MayStart, InDevice;
    CountsOf(s);
    if calls != [] {
      var c, n := calls[0], Nested(d, s, calls[0]);
      assert c.Start? ==> c.irp != 0 by {
        if c.Start? {
          MayStartMeans(d, s, c.irp);
        }
      }
      StepLoads(s, c);
      SizeOfConcat(n, calls[1..]);
      WorkConserving(d, Step(s, c), n + calls[1..]);
      assert Flat(d, s, calls)[1..] == Flat(d, Step(s, c), n + calls[1..]);
    }
  }

  /** One call is one arrival or one completion. */
  lemma StepLoads(s: State, c: Call)
    requires Inv(s) && (c.Start? ==> c.irp != 0)
    ensures var t := Step(s, c);
            && Inv(t) && |t.submitted| == |s.submitted| + (if c.Start? then 1 else 0)
            && InDevice(t) == if c.Start? then InDevice(s) + 1 else if InDevice(s) == 0 then 0 else InDevice(s) - 1
  {
    if c.Start? {
      StartKeeps(s, c.irp, c.key);
      StartMeans(s, c.irp, c.key);
    } else {
      NextKeeps(s);
      NextMeans(s);
    }
  }

  lemma CountsOf(s: State)
    requires Inv(s)
    ensures |s.started| + |s.queue| == |s.submitted|
    ensures |s.queue| == (if InDevice(s) == 0 then 0 else InDevice(s) - 1) && (s.busy <==> InDevice(s) > 0)
  {
    assert |multiset(s.submitted)| == |multiset(s.started)| + |multiset(s.queue)|;
  }

  predicate Apart(a: nat, b: nat) { a + NODE_SIZE <= b || b + NODE_SIZE <= a }

  /** A packet may be submitted if it does not wait already and does not overlap. */
  predicate MayStart(d: Device, s: State, irp: nat) {
    && irp != 0 && Apart(irp + LIST_IN_IRP, d.head)
    && forall p :: p in s.queue ==> Apart(irp, p.irp)
  }

  ghost predicate Legal(d: Device, s: State, calls: seq<Call>)
    decreases Size(calls)
  {
    if calls == [] then true
    else
      SizeOfConcat(Nested(d, s, calls[0]), calls[1..]);
      && (calls[0].Start? ==> MayStart(d, s, calls[0].irp))
      && Legal(d, Step(s, calls[0]), Nested(d, s, calls[0]) + calls[1..])
  }

  lemma {:induction false} ExecOfConcat(d: Device, s: State, a: seq<Call>, b: seq<Call>)
    ensures Exec(d, s, a + b) == Exec(d, Exec(d, s, a), b)
    ensures Legal(d, s, a + b) <==> Legal(d, s, a) && Legal(d, Exec(d, s, a), b)
    decreases Size(a)
  {
    if a == [] {
      assert a + b == b;
    } else {
      var n := Nested(d, s, a[0]);
      SizeOfConcat(n, a[1..]);
      assert (a + b)[1..] == a[1..] + b && n + (a[1..] + b) == n + a[1..] + b;
      ExecOfConcat(d, Step(s, a[0]), n + a[1..], b);
    }
  }

  /** Every legal run, with any nesting, keeps the invariant. */
  lemma {:induction false} RunKeeps(d: Device, s: State, calls: seq<Call>)
    requires Inv(s) && Legal(d, s, calls)
    ensures Inv(Exec(d, s, calls))
    decreases Size(calls)
  {
    if calls != [] {
      var c := calls[0];
      if c.Start? {
        StartKeeps(s, c.irp, c.key);
      } else {
        NextKeeps(s);
      }
      SizeOfConcat(Nested(d, s, c), calls[1..]);
      RunKeeps(d, Step(s, c), Nested(d, s, c) + calls[1..]);
    }
  }

  // ---- the circular list in memory -------------------------------------------

  /** Guest memory as 64-bit words at the addresses of the fields; absent ones are 0. */
  type Guest = map<nat, nat>

  function Read(m: Guest, a: nat): nat { if a in m then m[a] else 0 }

  function Succ(nodes: seq<nat>, i: nat): nat
    requires i < |nodes|
  {
    if i + 1 < |nodes| then nodes[i + 1] else nodes[0]
  }

  /** Flink at +0 and Blink at +8 agree with the circular order of the nodes. */
  ghost predicate LinkAt(m: Guest, nodes: seq<nat>, i: nat)
    requires i < |nodes|
  {
    Read(m, nodes[i]) == Succ(nodes, i) && Read(m, Succ(nodes, i) + 8) == nodes[i]
  }

  ghost predicate Ring(m: Guest, nodes: seq<nat>) { forall i :: 0 <= i < |nodes| ==> LinkAt(m, nodes, i) }

  ghost predicate Spaced(nodes: seq<nat>) {
    forall i, j :: 0 <= i < |nodes| && 0 <= j < |nodes| && i != j ==> Apart(nodes[i], nodes[j])
  }

  function Linked(m: Guest, x: nat, before: nat, after: nat): Guest {
    m[x := after][x + 8 := before][before := x][after + 8 := x]
  }

  function Unlinked(m: Guest, x: nat): Guest {
    m[Read(m, x + 8) := Read(m, x)][Read(m, x) + 8 := Read(m, x + 8)]
  }

  function With(nodes: seq<nat>, i: nat, x: nat): seq<nat>
    requires i < |nodes|
  {
    nodes[..i + 1] + [x] + nodes[i + 1..]
  }

  /** The four stores of an insertion behind node `i`. */
  lemma InsertKeepsRing(m: Guest, nodes: seq<nat>, i: nat, x: nat)
    requires Ring(m, nodes) && Spaced(nodes) && i < |nodes|
    requires forall j :: 0 <= j < |nodes| ==> Apart(nodes[j], x)
    ensures Ring(Linked(m, x, nodes[i], Succ(nodes, i)), With(nodes, i, x)) && Spaced(With(nodes, i, x))
  {
    var m', after := Linked(m, x, nodes[i], Succ(nodes, i)), With(nodes, i, x);
    NewLinks(m, nodes, i, x);
    hide Linked;
    forall j | 0 <= j < |after| ensures LinkAt(m', after, j) {
      if j < i || j > i + 1 {
        var k := if j < i then j else j - 1;
        assert LinkAt(m, nodes, k) && Succ(after, j) == Succ(nodes, k);
        LinkUntouched(m, nodes, i, x, k);
      }
    }
  }

  lemma NewLinks(m: Guest, nodes: seq<nat>, i: nat, x: nat)
    requires Spaced(nodes) && i < |nodes| && forall j :: 0 <= j < |nodes| ==> Apart(nodes[j], x)
    ensures var m', after := Linked(m, x, nodes[i], Succ(nodes, i)), With(nodes, i, x);
            LinkAt(m', after, i) && LinkAt(m', after, i + 1)
  {
    assert Succ(With(nodes, i, x), i) == x && Succ(With(nodes, i, x), i + 1) == Succ(nodes, i);
  }

  lemma LinkUntouched(m: Guest, nodes: seq<nat>, i: nat, x: nat, k: nat)
    requires Spaced(nodes) && i < |nodes| && k < |nodes| && k != i && LinkAt(m, nodes, k)
    requires forall j :: 0 <= j < |nodes| ==> Apart(nodes[j], x)
    ensures LinkAt(Linked(m, x, nodes[i], Succ(nodes, i)), nodes, k)
  {
    var s := if k + 1 < |nodes| then k + 1 else 0;
    var t := if i + 1 < |nodes| then i + 1 else 0;
    assert Apart(nodes[k], nodes[i]) && Apart(nodes[s], nodes[t]) && Apart(nodes[k], x) && Apart(nodes[s], x);
    assert k != t ==> Apart(nodes[k], nodes[t]);
    assert s != i ==> Apart(nodes[s], nodes[i]);
  }

  /** The memory holds a circular list with all of these nodes. */
  ghost predicate Circles(m: Guest, all: seq<nat>) {
    exists nodes :: Ring(m, nodes) && Spaced(nodes) && forall n :: n in all ==> n in nodes
  }

  /** No two nodes of a circle have the same successor. */
  lemma OnePredecessor(m: Guest, nodes: seq<nat>, a: nat, b: nat)
    requires Ring(m, nodes) && Spaced(nodes) && a in nodes && b in nodes && Read(m, a) == Read(m, b)
    ensures a == b
  {
    var k :| 0 <= k < |nodes| && nodes[k] == a;
    var l :| 0 <= l < |nodes| && nodes[l] == b;
    assert LinkAt(m, nodes, k) && LinkAt(m, nodes, l);
    assert Succ(nodes, k) == Succ(nodes, l);
    var s := if k + 1 < |nodes| then k + 1 else 0;
    var t := if l + 1 < |nodes| then l + 1 else 0;
    assert !Apart(nodes[s], nodes[t]);
  }

  /** Linking node `j` in a second time gives it two predecessors. */
  lemma TwoPredecessors(m: Guest, nodes: seq<nat>, i: nat, j: nat)
    requires Ring(m, nodes) && Spaced(nodes) && i < |nodes| && 1 <= j < |nodes|
    ensures var m' := Linked(m, nodes[j], nodes[i], Succ(nodes, i));
            var a, b := nodes[i], if i == j - 1 then nodes[j] else nodes[j - 1];
            Read(m', a) == Read(m', b) && a != b
  {
    var t := if i + 1 < |nodes| then i + 1 else 0;
    assert LinkAt(m, nodes, j - 1) && LinkAt(m, nodes, i);
    assert Apart(nodes[j - 1], nodes[j]);
    assert i != j ==> Apart(nodes[i], nodes[j]);
    assert i != j - 1 ==> Apart(nodes[i], nodes[j - 1]);
    assert t != i ==> Apart(nodes[t], nodes[i]);
    assert t != j ==> Apart(nodes[t], nodes[j]);
    assert t != j - 1 ==> Apart(nodes[t], nodes[j - 1]);
  }

  /** An insertion leaves a circle of all packets exactly when the packet was not in the
      queue already. */
  lemma InsertIffNew(m: Guest, nodes: seq<nat>, i: nat, x: nat)
    requires Ring(m, nodes) && Spaced(nodes) && i < |nodes| && x != nodes[0]
    requires x !in nodes ==> forall j :: 0 <= j < |nodes| ==> Apart(nodes[j], x)
    ensures Circles(Linked(m, x, nodes[i], Succ(nodes, i)), nodes + [x]) <==> x !in nodes
  {
    hide Linked, LinkAt, Apart;
    var m', all := Linked(m, x, nodes[i], Succ(nodes, i)), nodes + [x];
    if x !in nodes {
      InsertKeepsRing(m, nodes, i, x);
      assert forall n :: n in all ==> n in With(nodes, i, x);
    } else {
      var j :| 0 <= j < |nodes| && nodes[j] == x;
      TwoPredecessors(m, nodes, i, j);
      forall after | Ring(m', after) && Spaced(after) && forall n :: n in all ==> n in after
        ensures false
      {
        OnePredecessor(m', after, nodes[i], if i == j - 1 then nodes[j] else nodes[j - 1]);
      }
    }
  }

  /** The two stores that take node 1 out of the circle. */
  lemma RemoveKeepsRing(m: Guest, nodes: seq<nat>)
    requires Ring(m, nodes) && Spaced(nodes) && |nodes| >= 2
    ensures Ring(Unlinked(m, nodes[1]), [nodes[0]] + nodes[2..]) && Spaced([nodes[0]] + nodes[2..])
    ensures Read(m, nodes[1]) == Succ(nodes, 1) && Read(m, nodes[1] + 8) == nodes[0]
  {
    var m', after := Unlinked(m, nodes[1]), [nodes[0]] + nodes[2..];
    assert LinkAt(m, nodes, 0) && LinkAt(m, nodes, 1);
    forall j | 0 <= j < |after| ensures LinkAt(m', after, j) {
      if j > 0 {
        assert LinkAt(m, nodes, j + 1) && Apart(nodes[0], nodes[j + 1]);
        var s, t := if j + 2 < |nodes| then j + 2 else 0, if 2 < |nodes| then 2 else 0;
        assert s != t && Apart(nodes[s], nodes[t]);
        assert s != 0 ==> Apart(nodes[s], nodes[0]);
        assert t != j + 1 ==> Apart(nodes[t], nodes[j + 1]);
      }
    }
  }

  // ---- the queue in memory ---------------------------------------------------

  function Entry(irp: nat): nat { irp + LIST_IN_IRP }

  function Entries(q: seq<Packet>): seq<nat> { seq(|q|, i requires 0 <= i < |q| => Entry(q[i].irp)) }

  function Nodes(head: nat, q: seq<Packet>): seq<nat> { [head] + Entries(q) }

  ghost predicate KeysAt(m: Guest, q: seq<Packet>) {
    forall i :: 0 <= i < |q| ==> Read(m, Entry(q[i].irp) + KEY_IN_LIST) == q[i].key
  }

  ghost predicate Represents(m: Guest, head: nat, q: seq<Packet>) {
    Ring(m, Nodes(head, q)) && Spaced(Nodes(head, q)) && KeysAt(m, q)
  }

  lemma EmptyRing(m: Guest, head: nat)
    ensures Represents(m[head := head][head + 8 := head], head, [])
  {
  }

  lemma ListedIsNotZero(m: Guest, head: nat, q: seq<Packet>)
    requires Represents(m, head, q) && head > 0
    ensures Read(m, head) != 0
  {
    assert LinkAt(m, Nodes(head, q), 0);
  }

  ghost predicate Clear(head: nat, q: seq<Packet>, irp: nat) {
    Apart(head, Entry(irp)) && forall i :: 0 <= i < |q| ==> Apart(Entry(q[i].irp), Entry(irp))
  }

  lemma ClearOfNodes(head: nat, q: seq<Packet>, irp: nat)
    requires Clear(head, q, irp)
    ensures forall j :: 0 <= j < |Nodes(head, q)| ==> Apart(Nodes(head, q)[j], Entry(irp))
  {
  }

  lemma KeyStore(m: Guest, head: nat, q: seq<Packet>, irp: nat, key: nat)
    requires Represents(m, head, q) && Clear(head, q, irp)
    ensures var m' := m[Entry(irp) + KEY_IN_LIST := key];
            Represents(m', head, q) && Read(m', Entry(irp) + KEY_IN_LIST) == key
  {
    var m', nodes := m[Entry(irp) + KEY_IN_LIST := key], Nodes(head, q);
    ClearOfNodes(head, q, irp);
    forall i | 0 <= i < |nodes| ensures LinkAt(m', nodes, i) {
      assert LinkAt(m, nodes, i) && Apart(nodes[i], Entry(irp));
      assert Apart(nodes[if i + 1 < |nodes| then i + 1 else 0], Entry(irp));
    }
  }

  lemma KeyStays(m: Guest, nodes: seq<nat>, i: nat, x: nat, a: nat)
    requires Spaced(nodes) && i < |nodes|
    requires (a in nodes && forall j :: 0 <= j < |nodes| ==> Apart(nodes[j], x))
          || (a == x && forall j :: 0 <= j < |nodes| ==> Apart(nodes[j], x))
    ensures Read(Linked(m, x, nodes[i], Succ(nodes, i)), a + KEY_IN_LIST) == Read(m, a + KEY_IN_LIST)
  {
    assert Apart(nodes[i], x) && Apart(Succ(nodes, i), x);
    if a in nodes {
      var k :| 0 <= k < |nodes| && nodes[k] == a;
      var s := if i + 1 < |nodes| then i + 1 else 0;
      assert Apart(a, x) && (k != i ==> Apart(a, nodes[i])) && (k != s ==> Apart(a, nodes[s]));
    }
  }

  /** The stores of an insertion, once the key is stored, make the list that of the
      reference queue. */
  lemma InsertRepresents(m: Guest, head: nat, q: seq<Packet>, p: Packet)
    requires Represents(m, head, q) && Clear(head, q, p.irp)
    requires Read(m, Entry(p.irp) + KEY_IN_LIST) == p.key
    ensures var i, nodes := Position(q, p.key), Nodes(head, q);
            Represents(Linked(m, Entry(p.irp), nodes[i], Succ(nodes, i)), head, Insert(q, p))
  {
    hide Ring, Linked, Spaced, Succ, Position, Read;
    var i, nodes, x := Position(q, p.key), Nodes(head, q), Entry(p.irp);
    var after := Insert(q, p);
    ClearOfNodes(head, q, p.irp);
    InsertKeepsRing(m, nodes, i, x);
    assert Nodes(head, after) == With(nodes, i, x);
    InsertKeepsKeys(m, head, q, p);
  }

  lemma InsertKeepsKeys(m: Guest, head: nat, q: seq<Packet>, p: Packet)
    requires Represents(m, head, q) && Clear(head, q, p.irp)
    requires Read(m, Entry(p.irp) + KEY_IN_LIST) == p.key
    ensures var i, nodes, after := Position(q, p.key), Nodes(head, q), Insert(q, p);
            var m' := Linked(m, Entry(p.irp), nodes[i], Succ(nodes, i));
            forall j :: 0 <= j < |after| ==> Read(m', Entry(after[j].irp) + KEY_IN_LIST) == after[j].key
  {
    hide Ring, Linked, Spaced, Succ, Position, Read;
    var i, nodes, x, after := Position(q, p.key), Nodes(head, q), Entry(p.irp), Insert(q, p);
    ClearOfNodes(head, q, p.irp);
    var m' := Linked(m, x, nodes[i], Succ(nodes, i));
    forall j | 0 <= j < |after| ensures Read(m', Entry(after[j].irp) + KEY_IN_LIST) == after[j].key {
      if j != i {
        var k := if j < i then j else j - 1;
        assert after[j] == q[k] && nodes[k + 1] == Entry(q[k].irp);
      }
      KeyStays(m, nodes, i, x, Entry(after[j].irp));
    }
  }

  lemma RemoveRepresents(m: Guest, head: nat, q: seq<Packet>)
    requires Represents(m, head, q) && q != []
    ensures Represents(Unlinked(m, Entry(q[0].irp)), head, q[1..])
  {
    var nodes, x := Nodes(head, q), Entry(q[0].irp);
    RemoveKeepsRing(m, nodes);
    assert Nodes(head, q[1..]) == [nodes[0]] + nodes[2..];
    hide Ring;
    var m' := Unlinked(m, x);
    forall j | 0 <= j < |q[1..]| ensures Read(m', Entry(q[1..][j].irp) + KEY_IN_LIST) == q[1..][j].key {
      assert nodes[j + 2] == Entry(q[1..][j].irp) && Apart(nodes[j + 2], nodes[0]);
      assert 2 < |nodes| && (j > 0 ==> Apart(nodes[j + 2], nodes[2]));
    }
  }

  /** What a legal submission gives. */
  lemma MayStartMeans(d: Device, s: State, irp: nat)
    requires MayStart(d, s, irp)
    ensures Clear(d.head, s.queue, irp) && irp != 0
  {
    forall i | 0 <= i < |s.queue| ensures Apart(Entry(s.queue[i].irp), Entry(irp)) {
      assert s.queue[i] in s.queue;
    }
  }

  lemma {:induction false} OneCall(d: Device, s: State, c: Call)
    ensures Exec(d, s, [c]) == Exec(d, Step(s, c), Nested(d, s, c))
    ensures Legal(d, s, [c]) <==> (c.Start? ==> MayStart(d, s, c.irp)) && Legal(d, Step(s, c), Nested(d, s, c))
    ensures Nested(d, s, c) == [] ==> Exec(d, s, [c]) == Step(s, c)
    ensures Size([c]) == 1 + Size(c.inner)
  {
    assert Nested(d, s, c) + [c][1..] == Nested(d, s, c);
  }

  class DeviceObject {
    const dev: nat
    const startIo: bool
    var mem: Guest
    var busy: nat
    var currentIrp: nat
    ghost var queue: seq<Packet>
    ghost var submitted: seq<Packet>
    ghost var started: seq<Packet>

    function Head(): nat { dev + DEVICE_QUEUE + QUEUE_ENTRY }

    ghost function This(): Device { Device(Head(), startIo) }

    ghost function Abs(): State
      reads this
    {
      State(queue, currentIrp, busy == 1, submitted, started)
    }

    /** Either the list head is still all zeros, or the list is that of the queue. */
    ghost predicate Valid()
      reads this
    {
      && Inv(Abs()) && busy <= 1
      && (if Read(mem, Head()) == 0 then queue == [] && busy == 0 else Represents(mem, Head(), queue))
    }

    /** A device that was created zeroed. */
    constructor (dev: nat, startIo: bool, mem: Guest)
      requires Read(mem, dev + DEVICE_QUEUE + QUEUE_ENTRY) == 0
      ensures Valid() && this.dev == dev && this.startIo == startIo && this.mem == mem
      ensures Abs() == State([], 0, false, [], [])
    {
      this.dev := dev;
      this.startIo := startIo;
      this.mem := mem;
      busy, currentIrp := 0, 0;
      queue, submitted, started := [], [], [];
    }

    method EnsureInitialized()
      requires Valid()
      modifies `mem, `busy
      ensures Valid() && Represents(mem, Head(), queue) && Abs() == old(Abs())
    {
      if Read(mem, Head()) == 0 {
        busy := 0;
        EmptyRing(mem, Head());
        mem := mem[Head() := Head()][Head() + 8 := Head()];
      }
    }

    /** The walk to the first packet with a larger key, or to the head. */
    method FindPlace(key: nat) returns (cursor: nat)
      requires Represents(mem, Head(), queue)
      ensures cursor == Succ(Nodes(Head(), queue), Position(queue, key))
    {
      ghost var nodes := Nodes(Head(), queue);
      ghost var i := 0;
      assert LinkAt(mem, nodes, 0);
      cursor := Read(mem, Head());
      while cursor != Head() && !(Read(mem, cursor + KEY_IN_LIST) > key)
        invariant i < |nodes| && cursor == Succ(nodes, i) && i <= Position(queue, key)
        decreases |nodes| - i
      {
        assert cursor == Entry(queue[i].irp) && LinkAt(mem, nodes, i + 1);
        cursor := Read(mem, cursor);
        i := i + 1;
      }
      assert i + 1 < |nodes| ==> Apart(nodes[i + 1], nodes[0]);
    }

    /** IoStartPacket: run the packet at once if the device is idle, else queue it. */
    method StartPacket(irp: nat, key: SortKey, inner: seq<Call>)
      requires Valid() && Legal(This(), Abs(), [Start(irp, key, inner)])
      modifies this
      ensures Valid() && Abs() == Exec(This(), old(Abs()), [Start(irp, key, inner)])
      ensures inner == [] && old(busy) == 0 ==> busy == 1 && currentIrp == irp && queue == []
      ensures inner == [] && old(busy) == 1 ==>
                busy == 1 && currentIrp == old(currentIrp) && |queue| == |old(queue)| + 1
      decreases Size(inner), 2
    {
      hide Inv, Represents, Exec, Legal, MayStart, Clear, Size, Read;
      ghost var s, c := Abs(), Start(irp, key, inner);
      OneCall(This(), s, c);
      MayStartMeans(This(), s, irp);
      StartKeeps(s, irp, key);
      StartMeans(s, irp, key);
      EnsureInitialized();
      KeyStore(mem, Head(), queue, irp, KeyOf(key));
      mem := mem[Entry(irp) + KEY_IN_LIST := KeyOf(key)];
      if currentIrp == 0 && busy == 0 {
        busy := 1;
        currentIrp := irp;
        ghost var p := Packet(irp, KeyOf(key), |submitted|);
        submitted, started := submitted + [p], started + [p];
        ListedIsNotZero(mem, Head(), queue);
        CallStartIo(irp, inner);
        return;
      }
      Enqueue(irp, KeyOf(key));
      ListedIsNotZero(mem, Head(), queue);
    }

    /** The insertion of a packet whose key is stored already. */
    method Enqueue(irp: nat, key: Key)
      requires Represents(mem, Head(), queue) && Clear(Head(), queue, irp)
      requires Read(mem, Entry(irp) + KEY_IN_LIST) == key
      modifies `mem, `queue, `submitted
      ensures Represents(mem, Head(), queue)
      ensures queue == Insert(old(queue), Packet(irp, key, |old(submitted)|))
      ensures submitted == old(submitted) + [Packet(irp, key, |old(submitted)|)]
    {
      hide Represents, Insert, Nodes, Position, Clear, Read;
      ghost var p := Packet(irp, key, |submitted|);
      var entry := Entry(irp);
      var cursor := FindPlace(key);
      var blink := Read(mem, cursor + 8);
      LinkAtPlace(mem, Head(), queue, key);
      InsertRepresents(mem, Head(), queue, p);
      mem := mem[entry := cursor];
      mem := mem[entry + 8 := blink];
      mem := mem[blink := entry];
      mem := mem[cursor + 8 := entry];
      queue, submitted := Insert(queue, p), submitted + [p];
    }

    /** IoStartNextPacket: the first of the queue becomes current and runs, if any. */
    method StartNextPacket(inner: seq<Call>)
      requires Valid() && Legal(This(), Abs(), [Next(inner)])
      modifies this
      ensures Valid() && Abs() == Exec(This(), old(Abs()), [Next(inner)])
      ensures inner == [] ==> (busy == 0 <==> old(queue) == []) && (currentIrp == 0 <==> old(queue) == [])
      ensures inner == [] && old(queue) != [] ==> currentIrp == old(queue)[0].irp && queue == old(queue)[1..]
      decreases Size(inner), 2
    {
      hide Inv, Represents, Exec, Legal, Size, Read, NextStep, Nodes, Clear;
      ghost var s, c := Abs(), Next(inner);
      OneCall(This(), s, c);
      NextKeeps(s);
      NextMeans(s);
      EnsureInitialized();
      var first := Read(mem, Head());
      FirstIsLinked(mem, Head(), queue);
      currentIrp := 0;
      if first == Head() {
        busy := 0;
        ListedIsNotZero(mem, Head(), queue);
        return;
      }
      WaitingMeansBusy(s);
      var nextIrp := Dequeue(first);
      currentIrp := nextIrp;
      ListedIsNotZero(mem, Head(), queue);
      CallStartIo(nextIrp, inner);
    }

    /** The removal of the first packet, whose list entry is at `first`. */
    method Dequeue(first: nat) returns (irp: nat)
      requires Represents(mem, Head(), queue) && queue != [] && first == Entry(queue[0].irp)
      modifies `mem, `queue, `started
      ensures Represents(mem, Head(), queue) && irp == old(queue)[0].irp
      ensures queue == old(queue)[1..] && started == old(started) + [old(queue)[0]]
    {
      hide Represents, Read;
      RemoveRepresents(mem, Head(), queue);
      var flink, blink := Read(mem, first), Read(mem, first + 8);
      mem := mem[blink := flink];
      mem := mem[flink + 8 := blink];
      irp := first - LIST_IN_IRP;
      queue, started := queue[1..], started + [queue[0]];
    }

    /** The driver's StartIo routine runs, if there is one. At this moment the device is
        busy with exactly this packet, and the list is complete. */
    method CallStartIo(irp: nat, inner: seq<Call>)
      requires Valid() && busy == 1 && currentIrp == irp != 0 && Read(mem, Head()) != 0
      requires started != [] && started[|started| - 1].irp == irp
      requires Legal(This(), Abs(), if startIo then inner else [])
      modifies this
      ensures Valid() && Abs() == Exec(This(), old(Abs()), if startIo then inner else [])
      decreases Size(inner), 1
    {
      if startIo {
        Run(inner);
      }
    }

    /** A sequence of calls, each with the calls nested in it. */
    method Run(calls: seq<Call>)
      requires Valid() && Legal(This(), Abs(), calls)
      modifies this
      ensures Valid() && Abs() == Exec(This(), old(Abs()), calls)
      decreases Size(calls), 0
    {
      if calls == [] {
        return;
      }
      ghost var s := Abs();
      assert [calls[0]] + calls[1..] == calls;
      ExecOfConcat(This(), s, [calls[0]], calls[1..]);
      hide Exec, Legal;
      match calls[0] {
        case Start(irp, key, inner) => StartPacket(irp, key, inner);
        case Next(inner) => StartNextPacket(inner);
      }
      Run(calls[1..]);
    }
  }

  lemma LinkAtPlace(m: Guest, head: nat, q: seq<Packet>, key: nat)
    requires Represents(m, head, q)
    ensures var nodes, i := Nodes(head, q), Position(q, key);
            Read(m, Succ(nodes, i) + 8) == nodes[i]
  {
    assert LinkAt(m, Nodes(head, q), Position(q, key));
  }

  lemma FirstIsLinked(m: Guest, head: nat, q: seq<Packet>)
    requires Represents(m, head, q)
    ensures q == [] <==> Read(m, head) == head
    ensures q != [] ==> Read(m, head) == Entry(q[0].irp)
  {
    var nodes := Nodes(head, q);
    assert LinkAt(m, nodes, 0);
    assert q != [] ==> nodes[1] == Entry(q[0].irp) && Apart(nodes[0], nodes[1]);
  }
}
