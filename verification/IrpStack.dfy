/** The stack locations of an I/O request packet: the descent of a request through the
    drivers, and its completion back up through their completion routines. */
module IrpStack {
  const SLOT_SIZE: nat := 0x48
  const TWO32: nat := 0x1_0000_0000
  const NOT_SUPPORTED: int := -3
  const MORE_PROCESSING_REQUIRED: int := 0xC000_0016 - 0x1_0000_0000

  /** `onSuccess` and `onError` are the bits 0x40 and 0x80 of Control; a zero routine is
      none. */
  datatype Slot = Slot(device: nat, onSuccess: bool, onError: bool, routine: nat, context: nat)

  predicate Invokes(slot: Slot, status: int) {
    slot.routine != 0 && ((status >= 0 && slot.onSuccess) || (status < 0 && slot.onError))
  }

  // ---- what drivers do -------------------------------------------------------

  /** What a driver does with the request: hand it down, complete it, skip its own
      location, or write the status or a stack location. */
  datatype Call =
    | Down(device: nat, handler: Handler)
    | Complete(runs: seq<Routine>)
    | Skip
    | SetStatus(status: int)
    | SetSlot(location: nat, slot: Slot)

  /** The dispatch routine of a driver, if it has one, and the calls it makes. */
  datatype Handler = NoHandler | Handler(inner: seq<Call>, result: int)

  /** One run of a completion routine. */
  datatype Routine = Routine(inner: seq<Call>, result: int)

  function CallsSize(calls: seq<Call>): nat {
    if calls == [] then 0 else 1 + CallSize(calls[0]) + CallsSize(calls[1..])
  }

  function CallSize(c: Call): nat {
    match c
    case Down(_, Handler(inner, _)) => 1 + CallsSize(inner)
    case Complete(runs) => 1 + RunsSize(runs)
    case _ => 0
  }

  function RunsSize(runs: seq<Routine>): nat {
    if runs == [] then 0 else 1 + CallsSize(runs[0].inner) + RunsSize(runs[1..])
  }

  /** The run of the next completion routine (an idle one if none is given). */
  function FirstRun(runs: seq<Routine>): (r: Routine)
    ensures CallsSize(r.inner) <= RunsSize(runs)
    ensures runs != [] ==> CallsSize(r.inner) < RunsSize(runs)
  {
    if runs == [] then Routine([], 0) else runs[0]
  }

  function OtherRuns(runs: seq<Routine>): (r: seq<Routine>)
    ensures RunsSize(r) <= RunsSize(runs)
  {
    if runs == [] then [] else runs[1..]
  }

  // ---- the reference ---------------------------------------------------------

  datatype Event =
    | Descended(location: nat, device: nat)
    | Visited(location: nat, slot: Slot, status: int)
    | Ran(routine: nat, device: nat, context: nat)
    | Skipped(location: nat)
    | Answered(status: int)
    | Wrote(location: nat, slot: Slot)
    | Finished

  /** The current location, the status and the stack locations (number k at index k - 1),
      the events so far, and whether every completion routine kept to the rule: unless it
      asked for more processing it left the current location where it was. */
  datatype State = State(cl: nat, status: int, slots: seq<Slot>, log: seq<Event>, lawful: bool)

  predicate Fits(count: nat, s: State) { |s.slots| == count && 1 <= s.cl <= count + 1 }

  function Logged(s: State, e: Event): State { s.(log := s.log + [e]) }

  /** A sequence of calls. */
  function Exec(count: nat, s: State, calls: seq<Call>): (r: State)
    requires Fits(count, s)
    ensures Fits(count, r)
    decreases CallsSize(calls)
  {
    if calls == [] then s else Exec(count, Do(count, s, calls[0]), calls[1..])
  }

  function Do(count: nat, s: State, c: Call): (r: State)
    requires Fits(count, s)
    ensures Fits(count, r)
    decreases CallSize(c)
  {
    match c
    case Down(device, handler) =>
      if s.cl <= 1 then s
      else if handler.NoHandler? then Descend(s, device)
      else Exec(count, Descend(s, device), handler.inner)
    case Complete(runs) => CompleteFrom(count, s, s.cl, runs)
    case Skip => if s.cl <= count then Logged(s.(cl := s.cl + 1), Skipped(s.cl)) else s
    case SetStatus(status) => Logged(s.(status := status), Answered(status))
    case SetSlot(location, slot) =>
      if 1 <= location <= count then Logged(s.(slots := s.slots[location - 1 := slot]), Wrote(location, slot)) else s
  }

  /** One location down; the device object is noted there. */
  function Descend(s: State, device: nat): State
    requires 1 < s.cl <= |s.slots| + 1
  {
    var k := s.cl - 1;
    Logged(s.(cl := k, slots := s.slots[k - 1 := s.slots[k - 1].(device := device)]), Descended(k, device))
  }

  /** One location up, before the completion routine of location `k` runs. */
  function Ascend(s: State, k: nat): State
    requires 1 <= k <= |s.slots|
  {
    Logged(s.(cl := k + 1), Visited(k, s.slots[k - 1], s.status))
  }

  /** The device object a routine of location `k` gets: that of the location above. */
  function DeviceAbove(s: State, k: nat): nat
    requires 1 <= k
  {
    if k >= |s.slots| then 0 else s.slots[k].device % TWO32
  }

  function Running(s: State, k: nat): State
    requires 1 <= k <= |s.slots|
  {
    var slot := s.slots[k - 1];
    Logged(s, Ran(slot.routine, DeviceAbove(s, k), slot.context))
  }

  /** The completion walk from location `k` on. */
  function CompleteFrom(count: nat, s: State, k: nat, runs: seq<Routine>): (r: State)
    requires Fits(count, s) && 1 <= k
    ensures Fits(count, r)
    decreases RunsSize(runs), count + 1 - k
  {
    if k > count then Logged(s, Finished)
    else
      var up := Ascend(s, k);
      if !Invokes(s.slots[k - 1], s.status) then CompleteFrom(count, up, k + 1, runs)
      else
        var run := FirstRun(runs);
        var back := if run.inner == [] then Running(up, k) else Exec(count, Running(up, k), run.inner);
        if run.result == MORE_PROCESSING_REQUIRED then back
        else CompleteFrom(count, back.(lawful := back.lawful && back.cl == k + 1), k + 1, OtherRuns(runs))
  }

  // ---- the walk --------------------------------------------------------------

  /** The events move the location from `top` to `at` one step at a time: a descent goes
      one down, a visit and a skip one up, and the request is finished only at the top. */
  ghost predicate Walk(log: seq<Event>, top: nat, at: nat) {
    if log == [] then at == top
    else
      var rest := log[..|log| - 1];
      match log[|log| - 1]
      case Descended(k, _) => at == k && Walk(rest, top, k + 1)
      case Visited(k, _, _) => at == k + 1 && Walk(rest, top, k)
      case Skipped(k) => at == k + 1 && Walk(rest, top, k)
      case Finished => at == top && Walk(rest, top, at)
      case _ => Walk(rest, top, at)
  }

  lemma WalkOn(s: State, e: Event, top: nat, at: nat)
    ensures Walk(Logged(s, e).log, top, at) <==>
              match e
              case Descended(k, _) => at == k && Walk(s.log, top, k + 1)
              case Visited(k, _, _) => at == k + 1 && Walk(s.log, top, k)
              case Skipped(k) => at == k + 1 && Walk(s.log, top, k)
              case Finished => at == top && Walk(s.log, top, at)
              case _ => Walk(s.log, top, at)
  {
    assert Logged(s, e).log[..|s.log|] == s.log;
  }

  /** Every run leaves a walk, as long as the completion routines keep to their rule. */
  lemma {:induction false} ExecWalks(count: nat, s: State, calls: seq<Call>)
    requires Fits(count, s)
    ensures var r := Exec(count, s, calls);
            r.lawful ==> s.lawful && (Walk(s.log, count + 1, s.cl) ==> Walk(r.log, count + 1, r.cl))
    decreases CallsSize(calls)
  {
    if calls != [] {
      DoWalks(count, s, calls[0]);
      ExecWalks(count, Do(count, s, calls[0]), calls[1..]);
    }
  }

  lemma {:induction false} DoWalks(count: nat, s: State, c: Call)
    requires Fits(count, s)
    ensures var r := Do(count, s, c);
            r.lawful ==> s.lawful && (Walk(s.log, count + 1, s.cl) ==> Walk(r.log, count + 1, r.cl))
    decreases CallSize(c)
  {
    match c
    case Down(device, handler) =>
      if s.cl > 1 {
        WalkOn(s, Descended(s.cl - 1, device), count + 1, s.cl - 1);
        if handler.Handler? {
          ExecWalks(count, Descend(s, device), handler.inner);
        }
      }
    case Complete(runs) => CompleteWalks(count, s, s.cl, runs);
    case Skip => WalkOn(s, Skipped(s.cl), count + 1, s.cl + 1);
    case SetStatus(status) => WalkOn(s.(status := status), Answered(status), count + 1, s.cl);
    case SetSlot(location, slot) => WalkOn(s, Wrote(location, slot), count + 1, s.cl);
  }

  lemma {:induction false} CompleteWalks(count: nat, s: State, k: nat, runs: seq<Routine>)
    requires Fits(count, s) && 1 <= k && (s.lawful ==> s.cl == k)
    ensures var r := CompleteFrom(count, s, k, runs);
            r.lawful ==> s.lawful && (Walk(s.log, count + 1, k) ==> Walk(r.log, count + 1, r.cl))
    decreases RunsSize(runs), count + 1 - k
  {
    hide Walk, Exec, Invokes;
    if k > count {
      WalkOn(s, Finished, count + 1, k);
    } else {
      var up := Ascend(s, k);
      WalkOn(s, Visited(k, s.slots[k - 1], s.status), count + 1, k + 1);
      if !Invokes(s.slots[k - 1], s.status) {
        CompleteWalks(count, up, k + 1, runs);
      } else {
        var run := FirstRun(runs);
        var running := Running(up, k);
        WalkOn(up, Ran(up.slots[k - 1].routine, DeviceAbove(up, k), up.slots[k - 1].context), count + 1, k + 1);
        if run.inner != [] {
          ExecWalks(count, running, run.inner);
        }
        if run.result != MORE_PROCESSING_REQUIRED {
          var back := if run.inner == [] then running else Exec(count, running, run.inner);
          CompleteWalks(count, back.(lawful := back.lawful && back.cl == k + 1), k + 1, OtherRuns(runs));
        }
      }
    }
  }

  /** A walk is at one location. */
  lemma {:induction false} WalkIsAtOne(log: seq<Event>, top: nat, a: nat, b: nat)
    requires Walk(log, top, a) && Walk(log, top, b)
    ensures a == b
  {
    if log != [] {
      var rest := log[..|log| - 1];
      match log[|log| - 1]
      case Descended(_, _) =>
      case Visited(_, _, _) =>
      case Skipped(_) =>
      case Finished =>
      case _ => WalkIsAtOne(rest, top, a, b);
    }
  }

  /** No walk leads to location `k`. */
  ghost predicate OffTrack(log: seq<Event>, top: nat, k: nat) { !Walk(log, top, k) }

  ghost predicate Broken(log: seq<Event>, top: nat) { forall at: nat :: OffTrack(log, top, at) }

  /** Once an event does not follow from the location, no later one mends the walk. */
  lemma BreaksOn(s: State, e: Event, top: nat)
    requires match e
             case Visited(k, _, _) => OffTrack(s.log, top, k)
             case Finished => OffTrack(s.log, top, top)
             case _ => Broken(s.log, top)
    ensures Broken(Logged(s, e).log, top)
  {
    forall at: nat ensures OffTrack(Logged(s, e).log, top, at) {
      WalkOn(s, e, top, at);
      match e
      case Descended(k, _) => assert OffTrack(s.log, top, k + 1);
      case Skipped(k) => assert OffTrack(s.log, top, k);
      case Visited(_, _, _) =>
      case Finished =>
      case _ => assert OffTrack(s.log, top, at);
    }
  }

  /** The log is a walk to the current location if all routines kept to the rule, and else
      no walk at all. */
  ghost predicate Tracked(s: State, top: nat) {
    if s.lawful then Walk(s.log, top, s.cl) else Broken(s.log, top)
  }

  lemma {:induction false} ExecTracks(count: nat, s: State, calls: seq<Call>)
    requires Fits(count, s) && Tracked(s, count + 1)
    ensures Tracked(Exec(count, s, calls), count + 1)
    decreases CallsSize(calls)
  {
    if calls != [] {
      DoTracks(count, s, calls[0]);
      ExecTracks(count, Do(count, s, calls[0]), calls[1..]);
    }
  }

  lemma {:induction false} DoTracks(count: nat, s: State, c: Call)
    requires Fits(count, s) && Tracked(s, count + 1)
    ensures Tracked(Do(count, s, c), count + 1)
    decreases CallSize(c)
  {
    DoWalks(count, s, c);
    hide Broken, Walk;
    match c
    case Down(device, handler) =>
      if s.cl > 1 {
        WalkOn(s, Descended(s.cl - 1, device), count + 1, s.cl - 1);
        if !s.lawful {
          BreaksOn(s, Descended(s.cl - 1, device), count + 1);
        }
        if handler.Handler? {
          ExecTracks(count, Descend(s, device), handler.inner);
        }
      }
    case Complete(runs) => CompleteTracks(count, s, s.cl, runs);
    case Skip =>
      if !s.lawful {
        BreaksOn(s, Skipped(s.cl), count + 1);
      }
    case SetStatus(status) =>
      WalkOn(s.(status := status), Answered(status), count + 1, s.cl);
      if !s.lawful {
        BreaksOn(s.(status := status), Answered(status), count + 1);
      }
    case SetSlot(location, slot) =>
      WalkOn(s, Wrote(location, slot), count + 1, s.cl);
      if !s.lawful {
        BreaksOn(s, Wrote(location, slot), count + 1);
      }
  }

  /** Before location `k` is visited. */
  ghost predicate TrackedAt(s: State, top: nat, k: nat) {
    if s.lawful then s.cl == k && Walk(s.log, top, k) else OffTrack(s.log, top, k)
  }

  lemma AscendTracks(count: nat, s: State, k: nat)
    requires Fits(count, s) && 1 <= k <= count && TrackedAt(s, count + 1, k)
    ensures Tracked(Ascend(s, k), count + 1) && TrackedAt(Ascend(s, k), count + 1, k + 1)
  {
    hide Walk;
    if s.lawful {
      WalkOn(s, Visited(k, s.slots[k - 1], s.status), count + 1, k + 1);
    } else {
      BreaksOn(s, Visited(k, s.slots[k - 1], s.status), count + 1);
      assert OffTrack(Ascend(s, k).log, count + 1, k + 1);
    }
  }

  lemma RunningTracks(count: nat, up: State, k: nat)
    requires Fits(count, up) && 1 <= k <= count && up.cl == k + 1 && Tracked(up, count + 1)
    ensures Tracked(Running(up, k), count + 1)
  {
    hide Walk, Broken;
    var slot := up.slots[k - 1];
    var e := Ran(slot.routine, DeviceAbove(up, k), slot.context);
    WalkOn(up, e, count + 1, k + 1);
    if !up.lawful {
      BreaksOn(up, e, count + 1);
    }
  }

  lemma ReturnTracks(count: nat, back: State, k: nat)
    requires Tracked(back, count + 1)
    ensures TrackedAt(back.(lawful := back.lawful && back.cl == k + 1), count + 1, k + 1)
  {
    hide Walk;
    if back.lawful && back.cl != k + 1 && Walk(back.log, count + 1, k + 1) {
      WalkIsAtOne(back.log, count + 1, back.cl, k + 1);
    } else if !back.lawful {
      assert OffTrack(back.log, count + 1, k + 1);
    }
  }

  lemma {:induction false} CompleteTracks(count: nat, s: State, k: nat, runs: seq<Routine>)
    requires Fits(count, s) && 1 <= k <= count + 1 && TrackedAt(s, count + 1, k)
    ensures Tracked(CompleteFrom(count, s, k, runs), count + 1)
    decreases RunsSize(runs), count + 1 - k
  {
    hide Walk, Broken, OffTrack;
    if k > count {
      FinishTracks(count, s);
    } else {
      var up := Ascend(s, k);
      AscendTracks(count, s, k);
      if !Invokes(s.slots[k - 1], s.status) {
        CompleteTracks(count, up, k + 1, runs);
      } else {
        var run, running := FirstRun(runs), Running(up, k);
        RunningTracks(count, up, k);
        if run.inner != [] {
          ExecTracks(count, running, run.inner);
        }
        if run.result != MORE_PROCESSING_REQUIRED {
          var back := if run.inner == [] then running else Exec(count, running, run.inner);
          ReturnTracks(count, back, k);
          CompleteTracks(count, back.(lawful := back.lawful && back.cl == k + 1), k + 1, OtherRuns(runs));
        }
      }
    }
  }

  lemma FinishTracks(count: nat, s: State)
    requires TrackedAt(s, count + 1, count + 1)
    ensures s.lawful ==> s.cl == count + 1
    ensures Tracked(Logged(s, Finished), count + 1)
  {
    hide Walk;
    WalkOn(s, Finished, count + 1, count + 1);
    if !s.lawful {
      BreaksOn(s, Finished, count + 1);
    }
  }

  /** The locations of a run form a walk exactly if every completion routine kept to the
      rule. */
  lemma WalksIffLawful(slots: seq<Slot>, calls: seq<Call>)
    ensures var r := Exec(|slots|, Fresh(slots), calls);
            r.lawful <==> Walk(r.log, |slots| + 1, r.cl)
  {
    ExecTracks(|slots|, Fresh(slots), calls);
    var r := Exec(|slots|, Fresh(slots), calls);
    hide Exec, Fresh, Walk;
    assert !r.lawful ==> OffTrack(r.log, |slots| + 1, r.cl);
  }

  /** A routine that completes its request again and then lets the completion go on: the
      routine of the location above runs twice after one descent. */
  lemma TwiceWithoutTheRule()
    ensures var slots := [Slot(0, true, true, 1, 0), Slot(0, true, true, 2, 0)];
            var calls := [Down(0, NoHandler), Down(0, NoHandler), Complete([Routine([Complete([])], 0)])];
            var r := Exec(2, Fresh(slots), calls);
            !r.lawful && Visits(r.log, 2) == 2 && Runs(r.log, 2) == 2 && Descents(r.log, 2) == 1
  {
    hide Exec, Visits, Descents, Runs;
    var low, high := Slot(0, true, true, 1, 0), Slot(0, true, true, 2, 0);
    var runs := [Routine([Complete([])], 0)];
    TwoDown(low, high, runs);
    var down := [Descended(2, 0), Descended(1, 0)];
    CompletedTwice(low, high, State(1, 0, [low, high], down, true));
    NoCounts(2);
    CountsOn([], Descended(2, 0), 2);
    assert [] + [Descended(2, 0)] == [Descended(2, 0)];
    CountsOn([Descended(2, 0)], Descended(1, 0), 2);
    assert [Descended(2, 0)] + [Descended(1, 0)] == down;
    var log := down + [Visited(1, low, 0)];
    CountsOn(down, Visited(1, low, 0), 2);
    CountsOn(log, Ran(1, 0, 0), 2);
    log := log + [Ran(1, 0, 0)];
    TopCounts(log, high);
    TopCounts(TopEvents(log, high), high);
  }

  lemma NoCounts(k: nat)
    ensures Visits([], k) == 0 && Descents([], k) == 0 && Runs([], k) == 0
  {
  }

  /** What the completion of the top location adds. */
  function TopEvents(log: seq<Event>, high: Slot): seq<Event> {
    log + [Visited(2, high, 0)] + [Ran(2, 0, 0)] + [Finished]
  }

  lemma TopCounts(log: seq<Event>, high: Slot)
    ensures var after := TopEvents(log, high);
            && Visits(after, 2) == Visits(log, 2) + 1 && Runs(after, 2) == Runs(log, 2) + 1
            && Descents(after, 2) == Descents(log, 2)
  {
    hide Visits, Descents, Runs;
    CountsOn(log, Visited(2, high, 0), 2);
    CountsOn(log + [Visited(2, high, 0)], Ran(2, 0, 0), 2);
    CountsOn(log + [Visited(2, high, 0)] + [Ran(2, 0, 0)], Finished, 2);
  }

  lemma CompletedTwice(low: Slot, high: Slot, s: State)
    requires s.cl == 1 && s.status == 0 && s.slots == [low, high] && s.lawful
    requires low == Slot(0, true, true, 1, 0) && high == Slot(0, true, true, 2, 0)
    ensures CompleteFrom(2, s, 1, [Routine([Complete([])], 0)]) ==
            State(3, 0, s.slots,
                  TopEvents(TopEvents(s.log + [Visited(1, low, 0)] + [Ran(1, 0, 0)], high), high), false)
  {
    var runs := [Routine([Complete([])], 0)];
    var v1, ran := Visited(1, low, 0), Ran(1, 0, 0);
    var running := State(2, 0, s.slots, s.log + [v1] + [ran], true);
    var back := State(3, 0, s.slots, TopEvents(running.log, high), true);
    VisitsTop(running, high);
    OneCompletion(running);
    VisitsTop(back.(lawful := false), high);
    assert Ascend(s, 1) == State(2, 0, s.slots, s.log + [v1], true);
    assert Running(Ascend(s, 1), 1) == running;
    assert FirstRun(runs) == runs[0] && OtherRuns(runs) == [];
    hide Exec, Ascend, Running, FirstRun, OtherRuns, TopEvents;
    assert CompleteFrom(2, s, 1, runs) == CompleteFrom(2, back.(lawful := false), 2, []);
  }

  lemma CountsOn(log: seq<Event>, e: Event, k: nat)
    ensures Visits(log + [e], k) == Visits(log, k) + if IsVisit(e, k) then 1 else 0
    ensures Runs(log + [e], k) == Runs(log, k) + if IsRun(e, k) then 1 else 0
    ensures Descents(log + [e], k) == Descents(log, k) + if IsDescent(e, k) then 1 else 0
  {
    assert (log + [e])[..|log|] == log;
  }

  lemma TwoDown(low: Slot, high: Slot, runs: seq<Routine>)
    requires low.device == 0 && high.device == 0
    ensures var calls := [Down(0, NoHandler), Down(0, NoHandler), Complete(runs)];
            Exec(2, Fresh([low, high]), calls) ==
            CompleteFrom(2, State(1, 0, [low, high], [Descended(2, 0), Descended(1, 0)], true), 1, runs)
  {
    var calls := [Down(0, NoHandler), Down(0, NoHandler), Complete(runs)];
    var s0 := Fresh([low, high]);
    var s1 := State(2, 0, [low, high], [Descended(2, 0)], true);
    var s2 := State(1, 0, [low, high], [Descended(2, 0), Descended(1, 0)], true);
    assert Descend(s0, 0) == s1 && Descend(s1, 0) == s2;
    assert calls[1..] == [Down(0, NoHandler), Complete(runs)] && calls[1..][1..] == [Complete(runs)];
    assert [Complete(runs)][1..] == [];
    hide CompleteFrom;
    assert Exec(2, s2, [Complete(runs)]) == CompleteFrom(2, s2, 1, runs);
    assert Exec(2, s1, calls[1..]) == Exec(2, s2, [Complete(runs)]);
  }

  lemma OneCompletion(s: State)
    requires Fits(2, s)
    ensures Exec(2, s, [Complete([])]) == CompleteFrom(2, s, s.cl, [])
  {
    assert [Complete([])][1..] == [];
    hide CompleteFrom;
  }

  lemma VisitsTop(s: State, high: Slot)
    requires Fits(2, s) && s.slots[1] == high == Slot(0, true, true, 2, 0) && s.status == 0
    ensures CompleteFrom(2, s, 2, []) == State(3, 0, s.slots, TopEvents(s.log, high), s.lawful)
  {
    assert Ascend(s, 2) == State(3, 0, s.slots, s.log + [Visited(2, high, 0)], s.lawful);
  }

  predicate IsDescent(e: Event, k: nat) { e.Descended? && e.location == k }

  function Descents(log: seq<Event>, k: nat): nat {
    if log == [] then 0
    else Descents(log[..|log| - 1], k) + if IsDescent(log[|log| - 1], k) then 1 else 0
  }

  predicate IsVisit(e: Event, k: nat) { e.Visited? && e.location == k }

  function Visits(log: seq<Event>, k: nat): nat {
    if log == [] then 0
    else Visits(log[..|log| - 1], k) + if IsVisit(log[|log| - 1], k) then 1 else 0
  }

  predicate IsRun(e: Event, routine: nat) { e.Ran? && e.routine == routine }

  function Runs(log: seq<Event>, routine: nat): nat {
    if log == [] then 0
    else Runs(log[..|log| - 1], routine) + if IsRun(log[|log| - 1], routine) then 1 else 0
  }

  function Skips(log: seq<Event>, k: nat): nat {
    if log == [] then 0
    else Skips(log[..|log| - 1], k) + if log[|log| - 1] == Skipped(k) then 1 else 0
  }

  /** A walk from the top enters location `k` once more than it leaves it upwards while it
      is at or below `k`, and as often otherwise. */
  lemma {:induction false} Crossings(log: seq<Event>, top: nat, at: nat, k: nat)
    requires Walk(log, top, at) && k < top
    ensures Descents(log, k) == Visits(log, k) + Skips(log, k) + if at <= k then 1 else 0
  {
    if log != [] {
      var rest := log[..|log| - 1];
      match log[|log| - 1]
      case Descended(j, _) => Crossings(rest, top, j + 1, k);
      case Visited(j, _, _) => Crossings(rest, top, j, k);
      case Skipped(j) => Crossings(rest, top, j, k);
      case _ => Crossings(rest, top, at, k);
    }
  }

  /** The state of a new request with `count` stack locations. */
  function Fresh(slots: seq<Slot>): State { State(|slots| + 1, 0, slots, [], true) }

  /** So over a whole run, however it stops, resumes and descends again, the completion
      routine of a location is considered at most once for each descent into it. */
  lemma OncePerDescent(slots: seq<Slot>, calls: seq<Call>, k: nat)
    requires Exec(|slots|, Fresh(slots), calls).lawful && 1 <= k <= |slots|
    ensures var r := Exec(|slots|, Fresh(slots), calls);
            && Visits(r.log, k) <= Descents(r.log, k)
            && (r.cl <= k ==> Visits(r.log, k) < Descents(r.log, k))
  {
    var r := Exec(|slots|, Fresh(slots), calls);
    ExecWalks(|slots|, Fresh(slots), calls);
    Crossings(r.log, |slots| + 1, r.cl, k);
  }

  // ---- which routines run ----------------------------------------------------

  /** What stands in stack location `k` after these events: what a driver wrote there
      last, with the device of the last descent since. */
  function SlotIn(slots: seq<Slot>, log: seq<Event>, k: nat): Slot
    requires 1 <= k <= |slots|
  {
    if log == [] then slots[k - 1]
    else
      var rest := log[..|log| - 1];
      match log[|log| - 1]
      case Descended(j, device) =>
        if j == k then SlotIn(slots, rest, k).(device := device) else SlotIn(slots, rest, k)
      case Wrote(j, slot) => if j == k then slot else SlotIn(slots, rest, k)
      case _ => SlotIn(slots, rest, k)
  }

  /** The status that was written last, or the one the request started with. */
  function StatusIn(status: int, log: seq<Event>): int {
    if log == [] then status
    else if log[|log| - 1].Answered? then log[|log| - 1].status
    else StatusIn(status, log[..|log| - 1])
  }

  /** The device object of the location above, none above the top. */
  function DeviceIn(slots: seq<Slot>, log: seq<Event>, k: nat): nat
    requires 1 <= k <= |slots|
  {
    if k == |slots| then 0 else SlotIn(slots, log, k + 1).device % 0x1_0000_0000
  }

  /** If event `i` is a visit, it finds what was written to its location and status before.
      Exactly if there is a routine, and the bit for success is set and the status is no
      error, or the bit for errors is set and it is one, the routine runs next, with its
      context and the device of the location above. */
  ghost predicate VisitIsRight(slots: seq<Slot>, status: int, log: seq<Event>, i: nat)
    requires i < |log|
  {
    match log[i]
    case Visited(k, slot, found) =>
      && 1 <= k <= |slots| && slot == SlotIn(slots, log[..i], k) && found == StatusIn(status, log[..i])
      && (if slot.routine != 0 && (if found >= 0 then slot.onSuccess else slot.onError) then
            i + 1 < |log| && log[i + 1] == Ran(slot.routine, DeviceIn(slots, log[..i], k), slot.context)
          else i + 1 < |log| ==> !log[i + 1].Ran?)
    case Ran(_, _, _) => i > 0 && log[i - 1].Visited?
    case _ => true
  }

  ghost predicate Faithful(slots: seq<Slot>, status: int, log: seq<Event>) {
    forall i :: 0 <= i < |log| ==> VisitIsRight(slots, status, log, i)
  }

  /** The request is as its events say. */
  ghost predicate Recorded(slots: seq<Slot>, status: int, s: State) {
    && |s.slots| == |slots| && Faithful(slots, status, s.log) && s.status == StatusIn(status, s.log)
    && forall k :: 1 <= k <= |slots| ==> s.slots[k - 1] == SlotIn(slots, s.log, k)
  }

  lemma SlotInMore(slots: seq<Slot>, log: seq<Event>, e: Event, k: nat)
    requires 1 <= k <= |slots|
    ensures SlotIn(slots, log + [e], k) ==
              if IsDescent(e, k) then SlotIn(slots, log, k).(device := e.device)
              else if e.Wrote? && e.location == k then e.slot
              else SlotIn(slots, log, k)
  {
    assert (log + [e])[..|log|] == log;
  }

  lemma StatusInMore(status: int, log: seq<Event>, e: Event)
    ensures StatusIn(status, log + [e]) == if e.Answered? then e.status else StatusIn(status, log)
  {
    assert (log + [e])[..|log|] == log;
  }

  /** An event that is neither a run nor followed by one. */
  lemma FaithfulOn(slots: seq<Slot>, status: int, log: seq<Event>, e: Event)
    requires Faithful(slots, status, log) && !e.Ran?
    requires e.Visited? ==>
               && 1 <= e.location <= |slots| && e.slot == SlotIn(slots, log, e.location)
               && e.status == StatusIn(status, log) && !Invokes(e.slot, e.status)
    ensures Faithful(slots, status, log + [e])
  {
    var more := log + [e];
    hide SlotIn, StatusIn;
    forall i | 0 <= i < |more| ensures VisitIsRight(slots, status, more, i) {
      if i < |log| {
        assert VisitIsRight(slots, status, log, i) && more[..i] == log[..i];
      } else {
        assert more[..i] == log;
      }
    }
  }

  lemma FaithfulRun(slots: seq<Slot>, status: int, log: seq<Event>, k: nat, slot: Slot, found: int)
    requires Faithful(slots, status, log) && 1 <= k <= |slots|
    requires slot == SlotIn(slots, log, k) && found == StatusIn(status, log) && Invokes(slot, found)
    ensures Faithful(slots, status,
                     log + [Visited(k, slot, found)] + [Ran(slot.routine, DeviceIn(slots, log, k), slot.context)])
  {
    var v, e := Visited(k, slot, found), Ran(slot.routine, DeviceIn(slots, log, k), slot.context);
    var more := log + [v] + [e];
    hide SlotIn, StatusIn, DeviceIn;
    forall i | 0 <= i < |more| ensures VisitIsRight(slots, status, more, i) {
      if i < |log| {
        assert VisitIsRight(slots, status, log, i) && more[..i] == log[..i];
      } else if i == |log| {
        assert more[..i] == log;
      }
    }
  }

  lemma RecordedOn(slots: seq<Slot>, status: int, s: State, s': State, e: Event)
    requires Recorded(slots, status, s) && s'.log == s.log + [e] && !e.Ran? && !e.Visited?
    requires |s'.slots| == |slots| && s'.status == if e.Answered? then e.status else s.status
    requires forall k :: 1 <= k <= |slots| ==>
               s'.slots[k - 1] ==
                 if IsDescent(e, k) then s.slots[k - 1].(device := e.device)
                 else if e.Wrote? && e.location == k then e.slot
                 else s.slots[k - 1]
    ensures Recorded(slots, status, s')
  {
    hide Faithful, SlotIn, StatusIn;
    FaithfulOn(slots, status, s.log, e);
    StatusInMore(status, s.log, e);
    forall k | 1 <= k <= |slots| ensures s'.slots[k - 1] == SlotIn(slots, s'.log, k) {
      SlotInMore(slots, s.log, e, k);
    }
  }

  /** The visit of location `k`, and the run of its routine if it is due. */
  lemma VisitIsRecorded(slots: seq<Slot>, status: int, s: State, k: nat)
    requires Recorded(slots, status, s) && 1 <= k <= |slots|
    ensures Recorded(slots, status,
                     if Invokes(s.slots[k - 1], s.status) then Running(Ascend(s, k), k) else Ascend(s, k))
  {
    hide Faithful, SlotIn, StatusIn, Invokes;
    var slot := s.slots[k - 1];
    var v := Visited(k, slot, s.status);
    StatusInMore(status, s.log, v);
    forall j | 1 <= j <= |slots| ensures SlotIn(slots, s.log + [v], j) == SlotIn(slots, s.log, j) {
      SlotInMore(slots, s.log, v, j);
    }
    if Invokes(slot, s.status) {
      var e := Ran(slot.routine, DeviceIn(slots, s.log, k), slot.context);
      FaithfulRun(slots, status, s.log, k, slot, s.status);
      StatusInMore(status, s.log + [v], e);
      forall j | 1 <= j <= |slots| ensures SlotIn(slots, s.log + [v] + [e], j) == SlotIn(slots, s.log, j) {
        SlotInMore(slots, s.log + [v], e, j);
      }
    } else {
      FaithfulOn(slots, status, s.log, v);
    }
  }

  /** In every run the visits find what drivers wrote, and exactly the routines that are
      due run, with the right device and context. */
  lemma {:induction false} ExecIsFaithful(slots: seq<Slot>, status: int, s: State, calls: seq<Call>)
    requires Fits(|slots|, s) && Recorded(slots, status, s)
    ensures Recorded(slots, status, Exec(|slots|, s, calls))
    decreases CallsSize(calls)
  {
    if calls != [] {
      DoIsFaithful(slots, status, s, calls[0]);
      ExecIsFaithful(slots, status, Do(|slots|, s, calls[0]), calls[1..]);
    }
  }

  lemma {:induction false} DoIsFaithful(slots: seq<Slot>, status: int, s: State, c: Call)
    requires Fits(|slots|, s) && Recorded(slots, status, s)
    ensures Recorded(slots, status, Do(|slots|, s, c))
    decreases CallSize(c)
  {
    match c
    case Down(device, handler) =>
      if s.cl > 1 {
        RecordedOn(slots, status, s, Descend(s, device), Descended(s.cl - 1, device));
        hide Recorded;
        if handler.Handler? {
          ExecIsFaithful(slots, status, Descend(s, device), handler.inner);
        }
      }
    case Complete(runs) =>
      hide Recorded;
      CompleteIsFaithful(slots, status, s, s.cl, runs);
    case Skip =>
      if s.cl <= |slots| {
        RecordedOn(slots, status, s, Do(|slots|, s, c), Skipped(s.cl));
        hide Recorded;
      }
    case SetStatus(value) =>
      RecordedOn(slots, status, s, Do(|slots|, s, c), Answered(value));
      hide Recorded;
    case SetSlot(location, slot) =>
      if 1 <= location <= |slots| {
        RecordedOn(slots, status, s, Do(|slots|, s, c), Wrote(location, slot));
        hide Recorded;
      }
  }

  lemma {:induction false} CompleteIsFaithful(slots: seq<Slot>, status: int, s: State, k: nat, runs: seq<Routine>)
    requires Fits(|slots|, s) && 1 <= k && Recorded(slots, status, s)
    ensures Recorded(slots, status, CompleteFrom(|slots|, s, k, runs))
    decreases RunsSize(runs), |slots| + 1 - k
  {
    if k > |slots| {
      RecordedOn(slots, status, s, Logged(s, Finished), Finished);
      hide Recorded;
    } else {
      VisitIsRecorded(slots, status, s, k);
      hide Recorded, Invokes;
      var up := Ascend(s, k);
      if !Invokes(s.slots[k - 1], s.status) {
        CompleteIsFaithful(slots, status, up, k + 1, runs);
      } else {
        var run, running := FirstRun(runs), Running(up, k);
        if run.inner != [] {
          ExecIsFaithful(slots, status, running, run.inner);
        }
        if run.result != MORE_PROCESSING_REQUIRED {
          var back := if run.inner == [] then running else Exec(|slots|, running, run.inner);
          LawfulIsNoRecord(slots, status, back, k);
          CompleteIsFaithful(slots, status, back.(lawful := back.lawful && back.cl == k + 1), k + 1, OtherRuns(runs));
        }
      }
    }
  }

  lemma LawfulIsNoRecord(slots: seq<Slot>, status: int, s: State, k: nat)
    requires Recorded(slots, status, s)
    ensures Recorded(slots, status, s.(lawful := s.lawful && s.cl == k + 1))
  {
  }

  /** So it is in every run of a new request. */
  lemma NewRequestIsFaithful(slots: seq<Slot>, calls: seq<Call>)
    ensures Recorded(slots, 0, Exec(|slots|, Fresh(slots), calls))
  {
    ExecIsFaithful(slots, 0, Fresh(slots), calls);
  }

  // ---- stopping and resuming -------------------------------------------------

  /** What completion answers: whether a routine stopped it. */
  function Outcome(count: nat, s: State, k: nat, runs: seq<Routine>): int
    requires Fits(count, s) && 1 <= k
    decreases RunsSize(runs), count + 1 - k
  {
    if k > count then 0
    else
      var up := Ascend(s, k);
      if !Invokes(s.slots[k - 1], s.status) then Outcome(count, up, k + 1, runs)
      else
        var run := FirstRun(runs);
        var back := if run.inner == [] then Running(up, k) else Exec(count, Running(up, k), run.inner);
        if run.result == MORE_PROCESSING_REQUIRED then MORE_PROCESSING_REQUIRED
        else Outcome(count, back.(lawful := back.lawful && back.cl == k + 1), k + 1, OtherRuns(runs))
  }

  /** After the visit of location `k` and the run of its routine. */
  function AfterRun(count: nat, s: State, k: nat, inner: seq<Call>): (r: State)
    requires Fits(count, s) && 1 <= k <= count
    ensures Fits(count, r)
  {
    var running := Running(Ascend(s, k), k);
    if inner == [] then running else Exec(count, running, inner)
  }

  function Returned(back: State, k: nat): State { back.(lawful := back.lawful && back.cl == k + 1) }

  /** One location of a completion and of its answer. */
  lemma CompleteStep(count: nat, s: State, k: nat, runs: seq<Routine>)
    requires Fits(count, s) && 1 <= k <= count
    ensures var back, run := AfterRun(count, s, k, FirstRun(runs).inner), FirstRun(runs);
            if !Invokes(s.slots[k - 1], s.status) then
              && CompleteFrom(count, s, k, runs) == CompleteFrom(count, Ascend(s, k), k + 1, runs)
              && Outcome(count, s, k, runs) == Outcome(count, Ascend(s, k), k + 1, runs)
            else if run.result == MORE_PROCESSING_REQUIRED then
              CompleteFrom(count, s, k, runs) == back && Outcome(count, s, k, runs) == MORE_PROCESSING_REQUIRED
            else
              && CompleteFrom(count, s, k, runs) == CompleteFrom(count, Returned(back, k), k + 1, OtherRuns(runs))
              && Outcome(count, s, k, runs) == Outcome(count, Returned(back, k), k + 1, OtherRuns(runs))
  {
    hide Exec, Invokes;
  }

  /** A completion that a routine stopped, and that is resumed, is the completion that
      was never stopped: it goes on above the stopped location and runs nothing twice. */
  lemma {:induction false} StopAndResume(count: nat, s: State, k: nat, before: seq<Routine>, inner: seq<Call>,
                                         after: seq<Routine>)
    requires Fits(count, s) && 1 <= k && (s.lawful ==> s.cl == k)
    requires forall r :: r in before ==> r.result != MORE_PROCESSING_REQUIRED
    requires Outcome(count, s, k, before + [Routine(inner, MORE_PROCESSING_REQUIRED)]) == MORE_PROCESSING_REQUIRED
    requires CompleteFrom(count, s, k, before + [Routine(inner, 0)] + after).lawful
    ensures var stopped := CompleteFrom(count, s, k, before + [Routine(inner, MORE_PROCESSING_REQUIRED)]);
            CompleteFrom(count, stopped, stopped.cl, after) ==
            CompleteFrom(count, s, k, before + [Routine(inner, 0)] + after)
    decreases |before|, count + 1 - k
  {
    hide CompleteFrom, Outcome, Invokes, AfterRun, Exec, Walk;
    var stop, go := before + [Routine(inner, MORE_PROCESSING_REQUIRED)], before + [Routine(inner, 0)] + after;
    if k > count {
      NoAnswerAbove(count, s, k, stop);
    } else {
      CompleteStep(count, s, k, stop);
      CompleteStep(count, s, k, go);
      var run := FirstRun(go);
      if !Invokes(s.slots[k - 1], s.status) {
        StopAndResume(count, Ascend(s, k), k + 1, before, inner, after);
      } else if before == [] {
        var back := AfterRun(count, s, k, inner);
        assert OtherRuns(go) == after;
        CompleteWalks(count, Returned(back, k), k + 1, after);
        assert Returned(back, k) == back;
      } else {
        assert OtherRuns(stop) == before[1..] + [Routine(inner, MORE_PROCESSING_REQUIRED)];
        assert OtherRuns(go) == before[1..] + [Routine(inner, 0)] + after;
        StopAndResume(count, Returned(AfterRun(count, s, k, run.inner), k), k + 1, before[1..], inner, after);
      }
    }
  }

  /** What a dispatch routine does is what the same calls do right after the descent; at the
      bottom nothing is called. */
  lemma DispatchRuns(count: nat, s: State, device: nat, inner: seq<Call>, result: int)
    requires Fits(count, s)
    ensures Exec(count, s, [Down(device, Handler(inner, result))]) ==
            if s.cl <= 1 then s else Exec(count, s, [Down(device, NoHandler)] + inner)
    ensures s.cl > 1 ==> Exec(count, s, [Down(device, NoHandler)]).cl == s.cl - 1
  {
    var down := Down(device, Handler(inner, result));
    assert [down][1..] == [] && ([Down(device, NoHandler)] + inner)[1..] == inner;
    assert [Down(device, NoHandler)][1..] == [];
    hide CompleteFrom;
  }

  /** If no routine asks for more processing, the completion goes on to the top. */
  lemma {:induction false} CompletionFinishes(count: nat, s: State, k: nat, runs: seq<Routine>)
    requires Fits(count, s) && 1 <= k
    requires forall r :: r in runs ==> r.result != 0xC000_0016 - 0x1_0000_0000
    ensures var r := CompleteFrom(count, s, k, runs);
            && r.log != [] && r.log[|r.log| - 1] == Finished && Outcome(count, s, k, runs) == 0
    decreases RunsSize(runs), count + 1 - k
  {
    hide Exec, Invokes;
    if k <= count {
      var up := Ascend(s, k);
      if !Invokes(s.slots[k - 1], s.status) {
        CompletionFinishes(count, up, k + 1, runs);
      } else {
        var run := FirstRun(runs);
        var back := if run.inner == [] then Running(up, k) else Exec(count, Running(up, k), run.inner);
        CompletionFinishes(count, back.(lawful := back.lawful && back.cl == k + 1), k + 1, OtherRuns(runs));
      }
    }
  }

  /** If the first routine that runs asks for it, the completion stops with its run. */
  lemma CompletionStops(count: nat, s: State, k: nat, runs: seq<Routine>)
    requires Fits(count, s) && 1 <= k <= count && Invokes(s.slots[k - 1], s.status)
    requires runs != [] && runs[0] == Routine([], 0xC000_0016 - 0x1_0000_0000)
    ensures var r := CompleteFrom(count, s, k, runs);
            && r.cl == k + 1 && r.log[|r.log| - 1].Ran? && r.log == s.log + r.log[|s.log|..] && |r.log| == |s.log| + 2
            && Outcome(count, s, k, runs) == 0xC000_0016 - 0x1_0000_0000
  {
    var up := Ascend(s, k);
    assert Running(up, k).log == s.log + [up.log[|s.log|]] + [Running(up, k).log[|s.log| + 1]];
  }

  lemma NoAnswerAbove(count: nat, s: State, k: nat, runs: seq<Routine>)
    requires Fits(count, s) && k > count
    ensures Outcome(count, s, k, runs) != MORE_PROCESSING_REQUIRED
  {
  }

  // ---- the request in memory -------------------------------------------------

  class Irp {
    const base: nat
    const stackCount: nat
    var currentLocation: nat
    var currentStackLocation: nat
    var status: int
    var slots: seq<Slot>
    ghost var log: seq<Event>
    ghost var lawful: bool

    ghost function Abs(): State
      reads this
    {
      State(currentLocation, status, slots, log, lawful)
    }

    /** The address of stack location `k`; location count + 1 is the one above the top. */
    function Address(k: nat): int { base + (k - 1) * SLOT_SIZE }

    ghost predicate Valid()
      reads this
    {
      && 1 <= stackCount <= 254 && base + stackCount * SLOT_SIZE < TWO32
      && Fits(stackCount, Abs())
      && currentStackLocation == Address(currentLocation)
    }

    function SlotAt(address: int): Slot
      requires base <= address && (address - base) / SLOT_SIZE < |slots|
      reads this
    {
      slots[(address - base) / SLOT_SIZE]
    }

    /** A request with the stack locations asked for, at least one; the counts are bytes,
        so this is a request exactly if there are at most 254 of them. */
    constructor (base: nat, requested: nat, slots: seq<Slot>)
      requires |slots| == if requested == 0 then 1 else requested
      ensures Valid() <==> |slots| <= 254 && base + |slots| * SLOT_SIZE < TWO32
      ensures Valid() ==> Abs() == Fresh(slots) && stackCount == |slots|
      ensures this.base == base && this.slots == slots
    {
      var count := if requested == 0 then 1 else requested;
      this.base := base;
      stackCount := count % 0x100;
      currentLocation := (count + 1) % 0x100;
      currentStackLocation := base + (count - 1) * SLOT_SIZE + SLOT_SIZE;
      status, this.slots, log, lawful := 0, slots, [], true;
    }

    /** IofCallDriver: one location down, then the dispatch routine. */
    method CallDriver(device: nat, handler: Handler) returns (result: int)
      requires Valid()
      modifies this
      ensures Valid() && Abs() == Do(stackCount, old(Abs()), Down(device, handler))
      ensures result == if old(currentLocation) <= 1 || handler.NoHandler? then -3 else handler.result
      decreases CallSize(Down(device, handler)), 0
    {
      if currentLocation <= 1 {
        return NOT_SUPPORTED;
      }
      var stackPointer := currentStackLocation - SLOT_SIZE;
      var index := (stackPointer - base) / SLOT_SIZE;
      log := log + [Descended(currentLocation - 1, device)];
      currentLocation := currentLocation - 1;
      currentStackLocation := stackPointer;
      slots := slots[index := slots[index].(device := device)];
      match handler
      case NoHandler => return NOT_SUPPORTED;
      case Handler(inner, answer) =>
        Perform(inner);
        return answer;
    }

    /** IofCompleteRequest: the walk up from the current location. */
    method CompleteRequest(runs: seq<Routine>) returns (result: int)
      requires Valid()
      modifies this
      ensures Valid() && Abs() == Do(stackCount, old(Abs()), Complete(runs))
      ensures result == Outcome(stackCount, old(Abs()), old(currentLocation), runs)
      decreases CallSize(Complete(runs)), 0
    {
      hide Exec, Ascend, Running, Invokes, RunsSize, OtherRuns, FirstRun;
      ghost var s, k := Abs(), currentLocation;
      var location, stackPointer := currentLocation + 1, currentStackLocation + SLOT_SIZE;
      var underReview := currentStackLocation;
      var left := runs;
      while location <= stackCount + 1
        invariant Valid() && 1 <= k && location == k + 1
        invariant underReview == Address(k) && stackPointer == Address(k + 1)
        invariant RunsSize(left) <= RunsSize(runs)
        invariant CompleteFrom(stackCount, s, s.cl, runs) == CompleteFrom(stackCount, Abs(), k, left)
        invariant Outcome(stackCount, s, s.cl, runs) == Outcome(stackCount, Abs(), k, left)
        decreases stackCount + 1 - k
      {
        var invoked, stop := Review(underReview, location, stackPointer, k, left);
        if stop {
          return MORE_PROCESSING_REQUIRED;
        }
        if invoked {
          lawful := lawful && currentLocation == k + 1;
          left := OtherRuns(left);
        }
        underReview := underReview + SLOT_SIZE;
        location := location + 1;
        stackPointer := stackPointer + SLOT_SIZE;
        k := k + 1;
      }
      log := log + [Finished];
      return 0;
    }

    /** One location of the walk: the request moves up, then the routine runs if the
        Control bits say so. */
    method Review(underReview: int, location: nat, stackPointer: int, ghost k: nat, runs: seq<Routine>)
      returns (invoked: bool, stop: bool)
      requires Valid() && 1 <= k <= stackCount && location == k + 1
      requires underReview == Address(k) && stackPointer == Address(k + 1)
      modifies this
      ensures Valid() && invoked == Invokes(old(slots)[k - 1], old(status))
      ensures stop <==> invoked && FirstRun(runs).result == MORE_PROCESSING_REQUIRED
      ensures var up, run := Ascend(old(Abs()), k), FirstRun(runs);
              Abs() == if !invoked then up
                       else if run.inner == [] then Running(up, k)
                       else Exec(stackCount, Running(up, k), run.inner)
      decreases RunsSize(runs), 1
    {
      var slot := SlotAt(underReview);
      invoked := Invokes(slot, status);
      log := log + [Visited(k, slot, status)];
      currentLocation, currentStackLocation := location, stackPointer;
      if !invoked {
        return invoked, false;
      }
      var device := if location == stackCount + 1 then 0 else SlotAt(stackPointer).device % TWO32;
      var run := FirstRun(runs);
      log := log + [Ran(slot.routine, device, slot.context)];
      if run.inner != [] {
        Perform(run.inner);
      }
      return invoked, run.result == MORE_PROCESSING_REQUIRED;
    }

    method Perform(calls: seq<Call>)
      requires Valid()
      modifies this
      ensures Valid() && Abs() == Exec(stackCount, old(Abs()), calls)
      decreases CallsSize(calls), 0
    {
      if calls == [] {
        return;
      }
      match calls[0] {
        case Down(device, handler) => var result := CallDriver(device, handler);
        case Complete(runs) => var result := CompleteRequest(runs);
        case Skip =>
          if currentLocation <= stackCount {
            log := log + [Skipped(currentLocation)];
            currentLocation := currentLocation + 1;
            currentStackLocation := currentStackLocation + SLOT_SIZE;
          }
        case SetStatus(value) => status, log := value, log + [Answered(value)];
        case SetSlot(location, slot) =>
          if 1 <= location <= stackCount {
            slots := slots[location - 1 := slot];
            log := log + [Wrote(location, slot)];
          }
      }
      Perform(calls[1..]);
    }
  }
}
