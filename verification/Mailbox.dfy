/** The SMP job mailbox: the BSP posts a native call in a slot record in shared
    memory, one application processor (AP) per slot polls its record, runs the
    call and publishes the result. Every transition below is one memory access of
    one processor, so a run is an arbitrary interleaving of single accesses. The
    BSP stores 64-bit values as two 32-bit halves; the AP loads and stores 64 bits
    at once. */
module Mailbox {
  import opened Doubles
  import opened Physical

  const MAILBOX := 0xA000
  const MB_SLOTS := 0x100
  const SLOT_SIZE := 64
  const SLOT_JOB_FUNC := 0x08
  const SLOT_JOB_ARG1 := 0x10
  const SLOT_JOB_RES := 0x30
  const SLOT_JOB_DONE := 0x38
  const MAX_SLOTS := 15   // MAX_CPUS - 1

  function SlotRecord(slot: nat): int { MAILBOX + MB_SLOTS + slot * SLOT_SIZE }

  /** The records of the slots lie behind one another from 0xA100 on. */
  lemma RecordsApart(j: nat, k: nat)
    ensures SlotRecord(0) == 0xA100 && SlotRecord(k + 1) == SlotRecord(k) + 64
    ensures j < k ==> SlotRecord(j) + SLOT_SIZE <= SlotRecord(k)
  {
  }

  datatype Job = Job(func: Quad, arg1: Quad, arg2: Quad, arg3: Quad, arg4: Quad) {
    function Arg(i: nat): Quad {
      if i == 0 then arg1 else if i == 1 then arg2 else if i == 2 then arg3 else arg4
    }

    /** The `half`-th 32-bit word of the four arguments, in store order. */
    function Half(half: nat): Word {
      if half % 2 == 0 then Lo(Arg(half / 2)) else Hi(Arg(half / 2))
    }
  }

  /** A call the AP made, with the value the native routine returned. */
  datatype Call = Call(job: Job, result: Quad)

  /** The JavaScript number that waitJob handed out, and how many jobs the slot had
      accepted by then. */
  datatype Answer = Answer(afterPosts: nat, value: nat)

  datatype ApPc = Poll | LoadArg(i: nat) | ClearFunc | CallFunc | StoreResult | StoreDone

  /** An AP: where it is in its job loop, rax, and rcx, rdx, r8, r9. */
  datatype Ap = Ap(pc: ApPc, rax: Quad, regs: Job)

  datatype Bsp =
    | Idle
    | WaitFree(slot: nat, job: Job)
    | PostArg(slot: nat, job: Job, half: nat)
    | PostDone(slot: nat, job: Job)
    | PostFuncLo(slot: nat, job: Job)
    | PostFuncHi(slot: nat, job: Job)
    | WaitDone(slot: nat)
    | LoadResultLo(slot: nat)
    | LoadResultHi(slot: nat, lo: Word)

  /** The trace of one slot: jobs accepted, calls made, answers given. */
  datatype History = History(posted: seq<Job>, calls: seq<Call>, answers: seq<Answer>)

  datatype State = State(mem: Memory, bsp: Bsp, aps: seq<Ap>, hist: seq<History>)

  datatype Step =
    | BeginStartJob(slot: nat, job: Job)
    | BeginWaitJob(slot: nat)
    | BspTick
    | BspTimeout
    | ApTick(slot: nat, result: Quad)

  /** Online slots that never ran a job: DONE is 1, FUNC is 0, the APs are polling. */
  ghost predicate Initial(s: State) {
    && |s.aps| == |s.hist| <= MAX_SLOTS
    && s.bsp.Idle?
    && (forall k :: 0 <= k < |s.aps| ==> s.aps[k].pc == Poll)
    && (forall k :: 0 <= k < |s.hist| ==> s.hist[k] == History([], [], []))
    && (forall k :: 0 <= k < |s.aps| ==> Read32(s.mem, SlotRecord(k) + SLOT_JOB_DONE) == 1)
    && (forall k :: 0 <= k < |s.aps| ==> Read64(s.mem, SlotRecord(k) + SLOT_JOB_FUNC) == 0)
  }

  /** The BSP is not posting to slot `k` and not reading its result. */
  predicate Detached(b: Bsp, k: nat) {
    b.Idle? || b.slot != k || b.WaitFree? || b.WaitDone?
  }

  predicate Shaped(s: State) {
    && |s.aps| == |s.hist| <= MAX_SLOTS
    && (!s.bsp.Idle? ==> s.bsp.slot < |s.aps|)
  }

  predicate Enabled(s: State, e: Step) {
    match e
    case BeginStartJob(slot, _) => s.bsp.Idle? && slot < |s.aps|
    case BeginWaitJob(slot) => s.bsp.Idle? && slot < |s.aps|
    case BspTick => !s.bsp.Idle?
    case BspTimeout => s.bsp.WaitFree? || s.bsp.WaitDone?
    case ApTick(slot, _) => slot < |s.aps|
  }

  /** One access of the BSP. */
  function BspStep(s: State): (s': State)
    requires Shaped(s) && !s.bsp.Idle?
    ensures Shaped(s') && s'.aps == s.aps
  {
    var rec := SlotRecord(s.bsp.slot);
    match s.bsp
    case WaitFree(k, job) =>
      if Read32(s.mem, rec + SLOT_JOB_DONE) == 0 then s
      else s.(bsp := PostArg(k, job, 0),
              hist := s.hist[k := s.hist[k].(posted := s.hist[k].posted + [job])])
    case PostArg(k, job, half) =>
      s.(mem := Write32(s.mem, rec + SLOT_JOB_ARG1 + 4 * half, job.Half(half)),
         bsp := if half >= 7 then PostDone(k, job) else PostArg(k, job, half + 1))
    case PostDone(k, job) =>
      s.(mem := Write32(s.mem, rec + SLOT_JOB_DONE, 0), bsp := PostFuncLo(k, job))
    case PostFuncLo(k, job) =>
      s.(mem := Write32(s.mem, rec + SLOT_JOB_FUNC, Lo(job.func)), bsp := PostFuncHi(k, job))
    case PostFuncHi(k, job) =>
      s.(mem := Write32(s.mem, rec + SLOT_JOB_FUNC + 4, Hi(job.func)), bsp := Idle)
    case WaitDone(k) =>
      if Read32(s.mem, rec + SLOT_JOB_DONE) == 0 then s else s.(bsp := LoadResultLo(k))
    case LoadResultLo(k) =>
      s.(bsp := LoadResultHi(k, Read32(s.mem, rec + SLOT_JOB_RES)))
    case LoadResultHi(k, lo) =>
      var value := DoubleOf(lo + Read32(s.mem, rec + SLOT_JOB_RES + 4) * TWO32);
      var h := s.hist[k];
      s.(bsp := Idle,
         hist := s.hist[k := h.(answers := h.answers + [Answer(|h.posted|, value)])])
  }

  /** One access of the AP of slot `k`; the native routine returns `result`. */
  function ApStep(s: State, k: nat, result: Quad): (s': State)
    requires Shaped(s) && k < |s.aps|
    ensures Shaped(s') && s'.bsp == s.bsp && |s'.aps| == |s.aps|
  {
    var rec := SlotRecord(k);
    var ap := s.aps[k];
    match ap.pc
    case Poll =>
      var f := Read64(s.mem, rec + SLOT_JOB_FUNC);
      s.(aps := s.aps[k := if f == 0 then ap else Ap(LoadArg(0), f, ap.regs.(func := f))])
    case LoadArg(i) =>
      var v := Read64(s.mem, rec + SLOT_JOB_ARG1 + 8 * i);
      var regs := match i
        case 0 => ap.regs.(arg1 := v)
        case 1 => ap.regs.(arg2 := v)
        case 2 => ap.regs.(arg3 := v)
        case _ => ap.regs.(arg4 := v);
      s.(aps := s.aps[k := Ap(if i >= 3 then ClearFunc else LoadArg(i + 1), ap.rax, regs)])
    case ClearFunc =>
      s.(mem := Write64(s.mem, rec + SLOT_JOB_FUNC, 0), aps := s.aps[k := ap.(pc := CallFunc)])
    case CallFunc =>
      var h := s.hist[k];
      s.(aps := s.aps[k := ap.(pc := StoreResult, rax := result)],
         hist := s.hist[k := h.(calls := h.calls + [Call(ap.regs.(func := ap.rax), result)])])
    case StoreResult =>
      s.(mem := Write64(s.mem, rec + SLOT_JOB_RES, ap.rax), aps := s.aps[k := ap.(pc := StoreDone)])
    case StoreDone =>
      s.(mem := Write32(s.mem, rec + SLOT_JOB_DONE, 1), aps := s.aps[k := ap.(pc := Poll)])
  }

  function Next(s: State, e: Step): (s': State)
    requires Shaped(s) && Enabled(s, e)
    ensures Shaped(s') && |s'.aps| == |s.aps|
  {
    match e
    case BeginStartJob(slot, job) => s.(bsp := WaitFree(slot, job))
    case BeginWaitJob(slot) => s.(bsp := WaitDone(slot))
    case BspTick => BspStep(s)
    case BspTimeout => s.(bsp := Idle)
    case ApTick(slot, result) => ApStep(s, slot, result)
  }

  /** A BSP that waits may give up at any moment, which changes nothing else; nothing else
      can be given up. */
  lemma TimeoutMeans(s: State)
    requires Shaped(s)
    ensures (exists slot, job :: s.bsp == WaitFree(slot, job)) || (exists slot :: s.bsp == WaitDone(slot)) <==>
            Enabled(s, BspTimeout)
    ensures Enabled(s, BspTimeout) ==> Next(s, BspTimeout) == State(s.mem, Idle, s.aps, s.hist)
  {
    if s.bsp.WaitFree? {
      assert s.bsp == WaitFree(s.bsp.slot, s.bsp.job);
    } else if s.bsp.WaitDone? {
      assert s.bsp == WaitDone(s.bsp.slot);
    }
  }

  predicate ValidRun(s: State, es: seq<Step>)
    requires Shaped(s)
    decreases |es|
  {
    es == [] || (Enabled(s, es[0]) && ValidRun(Next(s, es[0]), es[1..]))
  }

  function Run(s: State, es: seq<Step>): (s': State)
    requires Shaped(s) && ValidRun(s, es)
    ensures Shaped(s') && |s'.aps| == |s.aps|
    decreases |es|
  {
    if es == [] then s else Run(Next(s, es[0]), es[1..])
  }

  // ---- what keeps a job exact ------------------------------------------------

  /** Both 32-bit halves of the pointer are nonzero, so a poll between the two
      stores sees a nonzero value that is not the pointer. */
  predicate Torn(func: Quad) { Lo(func) != 0 && Hi(func) != 0 }

  predicate PostsUntorn(es: seq<Step>) {
    forall i :: 0 <= i < |es| && es[i].BeginStartJob? ==> !Torn(es[i].job.func)
  }

  function Jobs(calls: seq<Call>): (js: seq<Job>)
    ensures |js| == |calls|
    ensures forall i :: 0 <= i < |js| ==> js[i] == calls[i].job
  {
    seq(|calls|, i requires 0 <= i < |calls| => calls[i].job)
  }

  /** The calls made are the accepted jobs, in order, with their exact pointer and
      arguments; at most the last accepted job is still outstanding. */
  predicate ExactCalls(h: History) {
    && |h.calls| <= |h.posted| <= |h.calls| + 1
    && Jobs(h.calls) == h.posted[..|h.calls|]
  }

  /** Every answer given after a job was accepted is the result of the latest one, as a
      JavaScript number. */
  ghost predicate ExactAnswers(h: History) {
    forall i :: 0 <= i < |h.answers| ==>
      var a := h.answers[i];
      a.afterPosts <= |h.posted| &&
      (a.afterPosts > 0 ==> a.afterPosts <= |h.calls| && a.value == DoubleOf(h.calls[a.afterPosts - 1].result))
  }

  predicate ArgsStored(m: Memory, k: nat, job: Job, halves: nat) {
    forall h :: 0 <= h < halves <= 8 ==> Read32(m, SlotRecord(k) + SLOT_JOB_ARG1 + 4 * h) == job.Half(h)
  }

  /** Nothing outstanding: FUNC is 0, the AP polls, DONE is 1, and RES holds the
      latest result. */
  predicate SlotFree(s: State, k: nat)
    requires Shaped(s) && k < |s.aps|
  {
    var h, rec := s.hist[k], SlotRecord(k);
    && s.aps[k].pc == Poll
    && Read64(s.mem, rec + SLOT_JOB_FUNC) == 0
    && Read32(s.mem, rec + SLOT_JOB_DONE) == 1
    && |h.calls| == |h.posted|
    && (|h.calls| > 0 ==> Read64(s.mem, rec + SLOT_JOB_RES) == h.calls[|h.calls| - 1].result)
  }

  /** The BSP has accepted `job` but no part of FUNC has been stored yet. */
  predicate SlotFilling(s: State, k: nat, job: Job, halves: nat, done: Word)
    requires Shaped(s) && k < |s.aps|
  {
    var h, rec := s.hist[k], SlotRecord(k);
    && s.aps[k].pc == Poll
    && Read64(s.mem, rec + SLOT_JOB_FUNC) == 0
    && Read32(s.mem, rec + SLOT_JOB_DONE) == done
    && |h.posted| == |h.calls| + 1 && h.posted[|h.calls|] == job
    && ArgsStored(s.mem, k, job, halves)
  }

  /** The latest job is in the AP's hands: DONE is 0 and the AP is in its loop. */
  predicate SlotServing(s: State, k: nat)
    requires Shaped(s) && k < |s.aps| && s.hist[k].posted != []
  {
    var h, rec, ap := s.hist[k], SlotRecord(k), s.aps[k];
    var job := h.posted[|h.posted| - 1];
    && Read32(s.mem, rec + SLOT_JOB_DONE) == 0
    && ((ap.pc.StoreResult? || ap.pc.StoreDone?) ==>
          |h.calls| == |h.posted| && h.calls[|h.calls| - 1].result == ap.rax)
    && (!(ap.pc.StoreResult? || ap.pc.StoreDone?) ==> |h.calls| + 1 == |h.posted|)
    && Read64(s.mem, rec + SLOT_JOB_FUNC) ==
         (if ap.pc.CallFunc? || ap.pc.StoreResult? || ap.pc.StoreDone? then 0 else job.func)
    && ArgsStored(s.mem, k, job, 8)
    && (ap.pc.LoadArg? ==> ap.pc.i < 4)
    && (ap.pc.LoadArg? || ap.pc.ClearFunc? || ap.pc.CallFunc? ==> ap.rax == job.func && ap.regs.func == job.func)
    && (forall i :: 0 <= i < 4 && (ap.pc.ClearFunc? || ap.pc.CallFunc? || (ap.pc.LoadArg? && i < ap.pc.i)) ==>
          ap.regs.Arg(i) == job.Arg(i))
    && (ap.pc.StoreDone? ==> Read64(s.mem, rec + SLOT_JOB_RES) == ap.rax)
  }

  /** The invariant of one slot. */
  ghost predicate SlotInv(s: State, k: nat)
    requires Shaped(s) && k < |s.aps|
  {
    && ExactCalls(s.hist[k])
    && ExactAnswers(s.hist[k])
    && (if s.bsp.PostArg? && s.bsp.slot == k then
          s.bsp.half < 8 && SlotFilling(s, k, s.bsp.job, s.bsp.half, 1)
        else if s.bsp.PostDone? && s.bsp.slot == k then
          SlotFilling(s, k, s.bsp.job, 8, 1)
        else if s.bsp.PostFuncLo? && s.bsp.slot == k then
          SlotFilling(s, k, s.bsp.job, 8, 0)
        else if s.bsp.PostFuncHi? && s.bsp.slot == k then
          if Lo(s.bsp.job.func) == 0 then SlotFilling(s, k, s.bsp.job, 8, 0)
          else
            var posted := s.hist[k].posted;
            posted != [] && posted[|posted| - 1] == s.bsp.job && (SlotServing(s, k) || SlotFree(s, k))
        else if (s.bsp.LoadResultLo? || s.bsp.LoadResultHi?) && s.bsp.slot == k then
          SlotFree(s, k)
          && (s.bsp.LoadResultHi? ==> s.bsp.lo == Read32(s.mem, SlotRecord(k) + SLOT_JOB_RES))
        else
          SlotFree(s, k) || (s.hist[k].posted != [] && SlotServing(s, k)))
  }

  ghost predicate Inv(s: State) {
    && Shaped(s)
    && (s.bsp.WaitFree? || s.bsp.PostArg? || s.bsp.PostDone? || s.bsp.PostFuncLo? || s.bsp.PostFuncHi? ==>
          !Torn(s.bsp.job.func))
    && (forall k :: 0 <= k < |s.aps| ==> SlotInv(s, k))
  }

  // ---- frames ----------------------------------------------------------------

  /** The words of slot `k` are the same in both memories. */
  ghost predicate SameRecord(m: Memory, m': Memory, k: nat) {
    forall a :: SlotRecord(k) <= a < SlotRecord(k) + SLOT_SIZE ==> Read32(m', a) == Read32(m, a)
  }

  lemma PhaseFrame(s: State, s': State, k: nat)
    requires Shaped(s) && Shaped(s') && k < |s.aps| == |s'.aps|
    requires SameRecord(s.mem, s'.mem, k)
    requires s'.aps[k] == s.aps[k] && s'.hist[k] == s.hist[k]
    ensures SlotFree(s', k) <==> SlotFree(s, k)
    ensures s.hist[k].posted != [] ==> (SlotServing(s', k) <==> SlotServing(s, k))
    ensures forall job, n: nat, done :: SlotFilling(s', k, job, n, done) <==> SlotFilling(s, k, job, n, done)
  {
    var a := SlotRecord(k);
    assert Read64(s'.mem, a + SLOT_JOB_FUNC) == Read64(s.mem, a + SLOT_JOB_FUNC);
    assert Read64(s'.mem, a + SLOT_JOB_RES) == Read64(s.mem, a + SLOT_JOB_RES);
    assert forall job, n: nat :: ArgsStored(s'.mem, k, job, n) <==> ArgsStored(s.mem, k, job, n);
    hide Read64, ArgsStored;
  }

  lemma SlotFrame(s: State, s': State, k: nat)
    requires Shaped(s) && Shaped(s') && k < |s.aps| == |s'.aps|
    requires SlotInv(s, k)
    requires SameRecord(s.mem, s'.mem, k)
    requires s'.aps[k] == s.aps[k] && s'.hist[k] == s.hist[k]
    requires s'.bsp == s.bsp || (Detached(s.bsp, k) && Detached(s'.bsp, k))
    ensures SlotInv(s', k)
  {
    hide ExactCalls, ExactAnswers, Jobs, SlotFree, SlotServing, SlotFilling;
    PhaseFrame(s, s', k);
  }

  /** Eight stored halves are four stored arguments. */
  lemma ArgReadBack(m: Memory, k: nat, job: Job, i: nat)
    requires ArgsStored(m, k, job, 8) && i < 4
    ensures Read64(m, SlotRecord(k) + SLOT_JOB_ARG1 + 8 * i) == job.Arg(i)
  {
    assert job.Half(2 * i) == Lo(job.Arg(i)) && job.Half(2 * i + 1) == Hi(job.Arg(i));
    Halves(job.Arg(i));
  }

  /** A poll that sees FUNC equal to 0 changes nothing. */
  lemma ApIdles(s: State, k: nat, result: Quad)
    requires Shaped(s) && k < |s.aps|
    requires s.aps[k].pc.Poll? && Read64(s.mem, SlotRecord(k) + SLOT_JOB_FUNC) == 0
    ensures ApStep(s, k, result) == s
  {
    assert s.aps[k := s.aps[k]] == s.aps;
  }

  /** Appending the outstanding job to the calls keeps the calls exact. */
  lemma CallIsExact(h: History, result: Quad)
    requires ExactCalls(h) && ExactAnswers(h) && |h.posted| == |h.calls| + 1
    ensures var h' := h.(calls := h.calls + [Call(h.posted[|h.calls|], result)]);
            ExactCalls(h') && ExactAnswers(h')
  {
    var job := h.posted[|h.calls|];
    assert Jobs(h.calls + [Call(job, result)]) == Jobs(h.calls) + [job];
    assert h.posted == h.posted[..|h.calls|] + [job];
  }

  ghost predicate GoesOnServing(s: State, s': State, k: nat)
    requires Shaped(s) && Shaped(s') && k < |s.aps| == |s'.aps| && s.hist[k].posted != []
  {
    && ExactCalls(s'.hist[k]) && ExactAnswers(s'.hist[k])
    && s'.hist[k].posted == s.hist[k].posted
    && (SlotServing(s', k) || SlotFree(s', k))
  }

  lemma ApServesByStore(s: State, k: nat, result: Quad)
    requires Shaped(s) && k < |s.aps| && s.hist[k].posted != []
    requires ExactCalls(s.hist[k]) && ExactAnswers(s.hist[k]) && SlotServing(s, k)
    requires var pc := s.aps[k].pc; pc.ClearFunc? || pc.StoreResult? || pc.StoreDone?
    ensures GoesOnServing(s, ApStep(s, k, result), k)
  {
    hide ExactCalls, ExactAnswers, Jobs;
    var ap, rec := s.aps[k], SlotRecord(k);
    match ap.pc
    case ClearFunc => WriteRead64(s.mem, rec + SLOT_JOB_FUNC, 0);
    case StoreResult => WriteRead64(s.mem, rec + SLOT_JOB_RES, ap.rax);
    case StoreDone =>
  }

  /** Serving goes on until DONE is set, and the call made is the accepted job. */
  lemma ApServes(s: State, k: nat, result: Quad)
    requires Shaped(s) && k < |s.aps| && s.hist[k].posted != []
    requires ExactCalls(s.hist[k]) && ExactAnswers(s.hist[k]) && SlotServing(s, k)
    ensures GoesOnServing(s, ApStep(s, k, result), k)
  {
    hide ExactCalls, ExactAnswers, Jobs;
    var h, ap := s.hist[k], s.aps[k];
    var job := h.posted[|h.posted| - 1];
    if ap.pc.ClearFunc? || ap.pc.StoreResult? || ap.pc.StoreDone? {
      hide ApStep, SlotServing, SlotFree, GoesOnServing;
      ApServesByStore(s, k, result);
      return;
    }
    hide Read64, Write64, Write32, ArgsStored;
    match ap.pc
    case Poll => if job.func == 0 { ApIdles(s, k, result); }
    case LoadArg(i) => ArgReadBack(s.mem, k, job, i);
    case CallFunc =>
      assert ap.regs.Arg(0) == job.Arg(0) && ap.regs.Arg(1) == job.Arg(1)
          && ap.regs.Arg(2) == job.Arg(2) && ap.regs.Arg(3) == job.Arg(3);
      assert ap.regs == job;
      CallIsExact(h, result);
  }

  lemma ApStepOwn(s: State, k: nat, result: Quad)
    requires Shaped(s) && k < |s.aps| && SlotInv(s, k)
    ensures SlotInv(ApStep(s, k, result), k)
  {
    hide ApStep, ExactCalls, ExactAnswers;
    if s.aps[k].pc.Poll? && Read64(s.mem, SlotRecord(k) + SLOT_JOB_FUNC) == 0 {
      ApIdles(s, k, result);
    } else {
      hide Read64, Read32;
      ApServes(s, k, result);
    }
  }

  /** An access of the AP of slot `k` touches no other record, AP or history. */
  lemma ApStepElsewhere(s: State, k: nat, result: Quad, j: nat)
    requires Shaped(s) && k < |s.aps| && j < |s.aps| && j != k && (s.aps[k].pc.LoadArg? ==> s.aps[k].pc.i < 4)
    ensures var s' := ApStep(s, k, result);
            SameRecord(s.mem, s'.mem, j) && s'.aps[j] == s.aps[j] && s'.hist[j] == s.hist[j]
  {
  }

  lemma ApStepKeeps(s: State, k: nat, result: Quad)
    requires Inv(s) && k < |s.aps|
    ensures Inv(ApStep(s, k, result))
  {
    var s' := ApStep(s, k, result);
    assert SlotInv(s, k);
    hide SlotInv, ApStep, SameRecord;
    forall j | 0 <= j < |s.aps|
      ensures SlotInv(s', j)
    {
      if j == k {
        ApStepOwn(s, k, result);
      } else {
        assert SlotInv(s, j);
        ApStepElsewhere(s, k, result, j);
        SlotFrame(s, s', j);
      }
    }
  }

  /** An access of the BSP touches no record or history but that of its slot. */
  lemma BspStepElsewhere(s: State, j: nat)
    requires Shaped(s) && !s.bsp.Idle? && j < |s.aps| && j != s.bsp.slot && (s.bsp.PostArg? ==> s.bsp.half < 8)
    ensures var s' := BspStep(s);
            && SameRecord(s.mem, s'.mem, j) && s'.hist[j] == s.hist[j]
            && (s'.bsp.Idle? || s'.bsp.slot == s.bsp.slot)
  {
  }

  lemma Accept(s: State)
    requires Inv(s) && s.bsp.WaitFree?
    ensures SlotInv(BspStep(s), s.bsp.slot)
  {
    var k, s' := s.bsp.slot, BspStep(s);
    var h := s.hist[k];
    assert SlotInv(s, k);
    if SlotFree(s, k) {
      assert (h.posted + [s.bsp.job])[..|h.calls|] == h.posted[..|h.calls|];
    }
  }

  lemma Fill(s: State)
    requires Inv(s) && (s.bsp.PostArg? || s.bsp.PostDone?)
    ensures SlotInv(BspStep(s), s.bsp.slot)
  {
    assert SlotInv(s, s.bsp.slot);
  }

  /** The first release store: the low half alone is either 0 or the whole pointer. */
  lemma ReleaseLo(s: State)
    requires Inv(s) && s.bsp.PostFuncLo?
    ensures SlotInv(BspStep(s), s.bsp.slot)
  {
    assert SlotInv(s, s.bsp.slot);
    Halves(s.bsp.job.func);
  }

  /** The second release store completes the pointer, or stores the 0 that is there
      already, however far the AP has got by then. */
  lemma ReleaseHi(s: State)
    requires Inv(s) && s.bsp.PostFuncHi?
    ensures SlotInv(BspStep(s), s.bsp.slot)
  {
    var k, s', job := s.bsp.slot, BspStep(s), s.bsp.job;
    var rec := SlotRecord(k);
    assert SlotInv(s, k);
    Halves(job.func);
    if Lo(job.func) == 0 {
      assert Read64(s'.mem, rec + SLOT_JOB_FUNC) == job.func;
      assert SlotServing(s', k);
    } else {
      assert Read64(s'.mem, rec + SLOT_JOB_FUNC) == Read64(s.mem, rec + SLOT_JOB_FUNC);
      assert Read64(s'.mem, rec + SLOT_JOB_RES) == Read64(s.mem, rec + SLOT_JOB_RES);
    }
  }

  lemma Await(s: State)
    requires Inv(s) && (s.bsp.WaitDone? || s.bsp.LoadResultLo? || s.bsp.LoadResultHi?)
    ensures SlotInv(BspStep(s), s.bsp.slot)
  {
    hide DoubleOf, Jobs, ArgsStored;
    assert SlotInv(s, s.bsp.slot);
  }

  lemma BspStepOwn(s: State)
    requires Inv(s) && !s.bsp.Idle?
    ensures SlotInv(BspStep(s), s.bsp.slot)
  {
    hide Inv, SlotInv, BspStep;
    match s.bsp
    case WaitFree(_, _) => Accept(s);
    case PostArg(_, _, _) => Fill(s);
    case PostDone(_, _) => Fill(s);
    case PostFuncLo(_, _) => ReleaseLo(s);
    case PostFuncHi(_, _) => ReleaseHi(s);
    case _ => Await(s);
  }

  lemma BspStepKeeps(s: State)
    requires Inv(s) && !s.bsp.Idle?
    ensures Inv(BspStep(s))
  {
    var s' := BspStep(s);
    assert SlotInv(s, s.bsp.slot);
    assert s'.bsp.PostArg? || s'.bsp.PostDone? || s'.bsp.PostFuncLo? || s'.bsp.PostFuncHi? ==>
        s'.bsp.job == s.bsp.job;
    assert s'.bsp.WaitFree? ==> s' == s;
    hide SlotInv, BspStep, SameRecord;
    forall j | 0 <= j < |s.aps|
      ensures SlotInv(s', j)
    {
      if j == s.bsp.slot {
        BspStepOwn(s);
      } else {
        assert SlotInv(s, j);
        BspStepElsewhere(s, j);
        SlotFrame(s, s', j);
      }
    }
  }

  lemma NextKeeps(s: State, e: Step)
    requires Inv(s) && Enabled(s, e)
    requires e.BeginStartJob? ==> !Torn(e.job.func)
    ensures Inv(Next(s, e))
  {
    match e
    case BspTick => BspStepKeeps(s);
    case ApTick(k, result) => ApStepKeeps(s, k, result);
    case _ =>
      forall j | 0 <= j < |s.aps| ensures SlotInv(Next(s, e), j) {
        assert SlotInv(s, j);
        assert SameRecord(s.mem, Next(s, e).mem, j);
        SlotFrame(s, Next(s, e), j);
      }
  }

  // ---- every run -------------------------------------------------------------

  lemma InitialInv(s: State)
    requires Initial(s)
    ensures Inv(s)
  {
    forall k | 0 <= k < |s.aps| ensures SlotInv(s, k) {
      assert s.hist[k] == History([], [], []);
    }
  }

  lemma {:induction false} RunKeeps(s: State, es: seq<Step>)
    requires Inv(s) && ValidRun(s, es) && PostsUntorn(es)
    ensures Inv(Run(s, es))
    decreases |es|
  {
    if es != [] {
      NextKeeps(s, es[0]);
      RunKeeps(Next(s, es[0]), es[1..]);
    }
  }

  /** In every interleaving the AP makes exactly the accepted calls, in order, each
      once and with its own pointer and arguments, and every answer of waitJob after
      an accepted job is that job's result. */
  lemma RunsAreExact(s: State, es: seq<Step>, k: nat)
    requires Initial(s) && ValidRun(s, es) && PostsUntorn(es) && k < |s.aps|
    ensures ExactCalls(Run(s, es).hist[k])
    ensures ExactAnswers(Run(s, es).hist[k])
  {
    InitialInv(s);
    RunKeeps(s, es);
    assert SlotInv(Run(s, es), k);
  }

  /** While the BSP stores arguments, FUNC is 0 and the AP only polls: whatever it
      does then changes nothing, so it cannot be reading what is being written. */
  lemma ArgumentsAreNotInUse(s: State, es: seq<Step>, result: Quad)
    requires Initial(s) && ValidRun(s, es) && PostsUntorn(es)
    requires Run(s, es).bsp.PostArg? || Run(s, es).bsp.PostDone?
    ensures var s' := Run(s, es); ApStep(s', s'.bsp.slot, result) == s'
  {
    InitialInv(s);
    RunKeeps(s, es);
    var s' := Run(s, es);
    assert SlotInv(s', s'.bsp.slot);
    ApIdles(s', s'.bsp.slot, result);
  }

  // ---- every accepted job with a pointer is run ------------------------------

  function ApTicks(es: seq<Step>, k: nat): nat {
    if es == [] then 0
    else (if es[0].ApTick? && es[0].slot == k then 1 else 0) + ApTicks(es[1..], k)
  }

  /** Accesses the AP still has to make before its call. */
  function StepsToCall(pc: ApPc): nat {
    match pc
    case Poll => 7
    case LoadArg(i) => if i <= 6 then 6 - i else 0
    case ClearFunc => 2
    case CallFunc => 1
    case _ => 0
  }

  /** startJob has returned and its job, the `m`-th of the slot, has not been run. */
  ghost predicate Outstanding(s: State, k: nat, m: nat)
    requires Shaped(s) && k < |s.aps|
  {
    Detached(s.bsp, k) && |s.hist[k].posted| == m && |s.hist[k].calls| + 1 == m
  }

  /** Until the call, a step of the AP brings it nearer and any other step leaves it
      where it is. */
  lemma StepTowardsCall(s: State, e: Step, k: nat, m: nat)
    requires Inv(s) && Enabled(s, e) && k < |s.aps| && Outstanding(s, k, m)
    ensures var s' := Next(s, e);
            var func := s.hist[k].posted[m - 1].func;
            s'.hist[k].posted == s.hist[k].posted &&
            if e.ApTick? && e.slot == k && func != 0 then
              if s.aps[k].pc.CallFunc? then |s'.hist[k].calls| == m
              else Outstanding(s', k, m) && StepsToCall(s'.aps[k].pc) + 1 == StepsToCall(s.aps[k].pc)
            else if e.ApTick? && e.slot == k && s.aps[k].pc.Poll? then s' == s
            else if e.ApTick? && e.slot == k then true
            else Outstanding(s', k, m) && s'.aps[k] == s.aps[k]
  {
    hide ExactCalls, ExactAnswers, Jobs;
    assert SlotInv(s, k);
    assert SlotServing(s, k);
    if e.ApTick? && e.slot == k && s.aps[k].pc.Poll? && s.hist[k].posted[m - 1].func == 0 {
      ApIdles(s, k, e.result);
    }
  }

  /** Once startJob has returned, a job with a nonzero pointer is run within seven
      accesses of its AP, whatever else happens in between. */
  lemma {:induction false} AcceptedJobRuns(s: State, es: seq<Step>, k: nat, m: nat)
    requires Inv(s) && ValidRun(s, es) && PostsUntorn(es) && k < |s.aps|
    requires Outstanding(s, k, m) && s.hist[k].posted[m - 1].func != 0
    requires ApTicks(es, k) >= StepsToCall(s.aps[k].pc)
    ensures |Run(s, es).hist[k].calls| >= m
    decreases |es|
  {
    assert SlotInv(s, k);
    if es != [] {
      var s' := Next(s, es[0]);
      NextKeeps(s, es[0]);
      StepTowardsCall(s, es[0], k, m);
      if |s'.hist[k].calls| == m {
        CallsGrow(s', es[1..], k);
      } else {
        AcceptedJobRuns(s', es[1..], k, m);
      }
    }
  }

  lemma {:induction false} CallsGrow(s: State, es: seq<Step>, k: nat)
    requires Shaped(s) && ValidRun(s, es) && k < |s.aps|
    ensures |Run(s, es).hist[k].calls| >= |s.hist[k].calls|
    decreases |es|
  {
    if es != [] {
      CallsGrow(Next(s, es[0]), es[1..], k);
    }
  }

  /** A null pointer is accepted too, and then nothing ever runs on the slot again. */
  lemma {:induction false} NullJobBlocksSlot(s: State, es: seq<Step>, k: nat, m: nat)
    requires Inv(s) && ValidRun(s, es) && PostsUntorn(es) && k < |s.aps|
    requires Outstanding(s, k, m) && s.hist[k].posted[m - 1].func == 0 && s.aps[k].pc.Poll?
    ensures Outstanding(Run(s, es), k, m) && Run(s, es).aps[k].pc.Poll?
    decreases |es|
  {
    if es != [] {
      NextKeeps(s, es[0]);
      StepTowardsCall(s, es[0], k, m);
      NullJobBlocksSlot(Next(s, es[0]), es[1..], k, m);
    }
  }

  // ---- slots as independent one-place channels -------------------------------

  datatype Channel = Channel(pending: seq<Job>, served: seq<Call>)

  function ChannelOf(h: History): Channel
    requires |h.calls| <= |h.posted|
  {
    Channel(h.posted[|h.calls|..], h.calls)
  }

  /** Stutter, put one job into the empty channel, or serve the job that is in it. */
  ghost predicate ChannelStep(c: Channel, c': Channel) {
    || c' == c
    || (c.pending == [] && |c'.pending| == 1 && c'.served == c.served)
    || (|c.pending| == 1 && c'.pending == [] && exists r :: c'.served == c.served + [Call(c.pending[0], r)])
  }

  /** A step adds one job, one call or one answer to a history, or nothing. */
  lemma HistoryStep(s: State, e: Step, k: nat)
    requires Shaped(s) && Enabled(s, e) && k < |s.aps|
    ensures var h, h' := s.hist[k], Next(s, e).hist[k];
            || (h'.posted == h.posted && h'.calls == h.calls)
            || (h'.calls == h.calls && |h'.posted| == |h.posted| + 1)
            || (h'.posted == h.posted && |h'.calls| == |h.calls| + 1 && h'.calls[..|h.calls|] == h.calls)
  {
  }

  lemma StepIsChannelStep(s: State, e: Step, k: nat)
    requires Inv(s) && Enabled(s, e) && k < |s.aps|
    requires e.BeginStartJob? ==> !Torn(e.job.func)
    ensures ExactCalls(s.hist[k]) && ExactCalls(Next(s, e).hist[k])
    ensures ChannelStep(ChannelOf(s.hist[k]), ChannelOf(Next(s, e).hist[k]))
  {
    var h, h' := s.hist[k], Next(s, e).hist[k];
    NextKeeps(s, e);
    assert SlotInv(s, k) && SlotInv(Next(s, e), k);
    HistoryStep(s, e, k);
    hide Next, SlotInv, Inv;
    if |h'.calls| == |h.calls| + 1 {
      var c := h'.calls[|h.calls|];
      assert Jobs(h'.calls)[|h.calls|] == h.posted[|h.calls|];
      assert h'.calls == h.calls + [Call(ChannelOf(h).pending[0], c.result)];
    }
  }

  function OnSlot0(b: Bsp): Bsp {
    match b
    case Idle => Idle
    case WaitFree(_, job) => WaitFree(0, job)
    case PostArg(_, job, half) => PostArg(0, job, half)
    case PostDone(_, job) => PostDone(0, job)
    case PostFuncLo(_, job) => PostFuncLo(0, job)
    case PostFuncHi(_, job) => PostFuncHi(0, job)
    case WaitDone(_) => WaitDone(0)
    case LoadResultLo(_) => LoadResultLo(0)
    case LoadResultHi(_, lo) => LoadResultHi(0, lo)
  }

  function RecordWord(m: Memory, k: nat, o: nat): Word { Read32(m, SlotRecord(k) + o) }

  /** Record 0 of `m'` holds what record `k` of `m` holds. */
  ghost predicate SameView(m: Memory, k: nat, m': Memory) {
    forall o: nat :: o < SLOT_SIZE ==> RecordWord(m', 0, o) == RecordWord(m, k, o)
  }

  lemma ViewReads(m: Memory, k: nat, m': Memory, o: nat)
    requires SameView(m, k, m') && o + 4 < SLOT_SIZE
    ensures Read32(m', SlotRecord(0) + o) == Read32(m, SlotRecord(k) + o)
    ensures Read64(m', SlotRecord(0) + o) == Read64(m, SlotRecord(k) + o)
  {
    assert RecordWord(m', 0, o) == RecordWord(m, k, o);
    assert RecordWord(m', 0, o + 4) == RecordWord(m, k, o + 4);
  }

  lemma ViewWrites(m: Memory, k: nat, m': Memory, o: nat, v: Word)
    requires SameView(m, k, m') && o < SLOT_SIZE
    ensures SameView(Write32(m, SlotRecord(k) + o, v), k, Write32(m', SlotRecord(0) + o, v))
  {
    var n, n' := Write32(m, SlotRecord(k) + o, v), Write32(m', SlotRecord(0) + o, v);
    forall q: nat | q < SLOT_SIZE ensures RecordWord(n', 0, q) == RecordWord(n, k, q) {
      assert RecordWord(m', 0, q) == RecordWord(m, k, q);
    }
  }

  lemma ViewWrites64(m: Memory, k: nat, m': Memory, o: nat, v: Quad)
    requires SameView(m, k, m') && o + 4 < SLOT_SIZE
    ensures SameView(Write64(m, SlotRecord(k) + o, v), k, Write64(m', SlotRecord(0) + o, v))
  {
    ViewWrites(m, k, m', o, Lo(v));
    ViewWrites(Write32(m, SlotRecord(k) + o, Lo(v)), k, Write32(m', SlotRecord(0) + o, Lo(v)), o + 4, Hi(v));
  }

  lemma ViewElsewhere(m: Memory, n: Memory, k: nat, m': Memory)
    requires SameView(m, k, m') && SameRecord(m, n, k)
    ensures SameView(n, k, m')
  {
    forall q: nat | q < SLOT_SIZE ensures RecordWord(m', 0, q) == RecordWord(n, k, q) {
      assert RecordWord(m', 0, q) == RecordWord(m, k, q);
    }
  }

  /** `t` is a machine with one slot that looks like slot `k` of `s`. */
  ghost predicate Alone(s: State, k: nat, t: State)
    requires Shaped(s) && k < |s.aps|
  {
    && Shaped(t) && |t.aps| == 1
    && t.aps[0] == s.aps[k] && t.hist[0] == s.hist[k]
    && t.bsp == (if !s.bsp.Idle? && s.bsp.slot == k then OnSlot0(s.bsp) else Idle)
    && SameView(s.mem, k, t.mem)
  }

  /** The step as slot `k` sees it: a step of its own or nothing. */
  function Seen(s: State, e: Step, k: nat): seq<Step>
    requires Shaped(s) && Enabled(s, e)
  {
    match e
    case BeginStartJob(slot, job) => if slot == k then [BeginStartJob(0, job)] else []
    case BeginWaitJob(slot) => if slot == k then [BeginWaitJob(0)] else []
    case BspTick => if s.bsp.slot == k then [BspTick] else []
    case BspTimeout => if s.bsp.slot == k then [BspTimeout] else []
    case ApTick(slot, result) => if slot == k then [ApTick(0, result)] else []
  }

  function SeenRun(s: State, es: seq<Step>, k: nat): seq<Step>
    requires Shaped(s) && ValidRun(s, es)
    decreases |es|
  {
    if es == [] then [] else Seen(s, es[0], k) + SeenRun(Next(s, es[0]), es[1..], k)
  }

  /** No store to one record is seen from another, because a half index stays below 8
      and a load index below 4. */
  ghost predicate Bounded(s: State) {
    && Shaped(s)
    && (s.bsp.PostArg? ==> s.bsp.half < 8)
    && (forall k :: 0 <= k < |s.aps| ==> s.aps[k].pc.LoadArg? ==> s.aps[k].pc.i < 4)
  }

  lemma OneStep(t: State, e: Step)
    requires Shaped(t) && Enabled(t, e)
    ensures ValidRun(t, [e]) && Run(t, [e]) == Next(t, e)
  {
    assert [e][1..] == [];
    assert ValidRun(Next(t, e), []);
  }

  lemma BspStepAlone(s: State, k: nat, t: State)
    requires Bounded(s) && k < |s.aps| && Alone(s, k, t) && !s.bsp.Idle? && s.bsp.slot == k
    ensures Alone(BspStep(s), k, BspStep(t))
  {
    hide Read32, Read64, Write32, Write64, Lo, Hi, SameView;
    ViewReads(s.mem, k, t.mem, SLOT_JOB_RES);
    ViewReads(s.mem, k, t.mem, SLOT_JOB_RES + 4);
    ViewReads(s.mem, k, t.mem, SLOT_JOB_DONE);
    match s.bsp
    case PostArg(_, job, half) => ViewWrites(s.mem, k, t.mem, SLOT_JOB_ARG1 + 4 * half, job.Half(half));
    case PostDone(_, job) => ViewWrites(s.mem, k, t.mem, SLOT_JOB_DONE, 0);
    case PostFuncLo(_, job) => ViewWrites(s.mem, k, t.mem, SLOT_JOB_FUNC, Lo(job.func));
    case PostFuncHi(_, job) => ViewWrites(s.mem, k, t.mem, SLOT_JOB_FUNC + 4, Hi(job.func));
    case _ =>
  }

  lemma ApStepAlone(s: State, k: nat, result: Quad, t: State)
    requires Bounded(s) && k < |s.aps| && Alone(s, k, t)
    ensures Alone(ApStep(s, k, result), k, ApStep(t, 0, result))
  {
    hide Read32, Read64, Write32, Write64, Lo, Hi, SameView;
    match s.aps[k].pc
    case Poll => ViewReads(s.mem, k, t.mem, SLOT_JOB_FUNC);
    case LoadArg(i) => ViewReads(s.mem, k, t.mem, SLOT_JOB_ARG1 + 8 * i);
    case ClearFunc => ViewWrites64(s.mem, k, t.mem, SLOT_JOB_FUNC, 0);
    case CallFunc =>
    case StoreResult => ViewWrites64(s.mem, k, t.mem, SLOT_JOB_RES, s.aps[k].rax);
    case StoreDone => ViewWrites(s.mem, k, t.mem, SLOT_JOB_DONE, 1);
  }

  lemma OtherStepAlone(s: State, e: Step, k: nat, t: State)
    requires Bounded(s) && Enabled(s, e) && k < |s.aps| && Alone(s, k, t)
    requires Seen(s, e, k) == []
    ensures Alone(Next(s, e), k, t)
  {
    hide ApStep, BspStep, SameRecord, SameView;
    match e
    case BspTick =>
      BspStepElsewhere(s, k);
      ViewElsewhere(s.mem, BspStep(s).mem, k, t.mem);
    case ApTick(j, result) =>
      ApStepElsewhere(s, j, result, k);
      ViewElsewhere(s.mem, ApStep(s, j, result).mem, k, t.mem);
    case _ =>
  }

  lemma StaysBounded(s: State, e: Step)
    requires Bounded(s) && Enabled(s, e)
    ensures Bounded(Next(s, e))
  {
  }

  lemma StepAlone(s: State, e: Step, k: nat, t: State)
    requires Bounded(s) && Enabled(s, e) && k < |s.aps| && Alone(s, k, t)
    ensures ValidRun(t, Seen(s, e, k))
    ensures Alone(Next(s, e), k, Run(t, Seen(s, e, k)))
  {
    var seen := Seen(s, e, k);
    if seen == [] {
      OtherStepAlone(s, e, k, t);
    } else {
      OneStep(t, seen[0]);
      match e
      case BspTick => BspStepAlone(s, k, t);
      case ApTick(_, result) => ApStepAlone(s, k, result, t);
      case _ =>
    }
  }

  lemma {:induction false} RunAppend(t: State, es: seq<Step>, fs: seq<Step>)
    requires Shaped(t) && ValidRun(t, es) && ValidRun(Run(t, es), fs)
    ensures ValidRun(t, es + fs) && Run(t, es + fs) == Run(Run(t, es), fs)
    decreases |es|
  {
    if es == [] {
      assert es + fs == fs;
    } else {
      RunAppend(Next(t, es[0]), es[1..], fs);
      assert (es + fs)[1..] == es[1..] + fs;
    }
  }

  /** Whatever the other slots do, what slot `k` goes through in a run of the whole
      machine is a run of a machine in which it is the only slot. */
  lemma {:induction false} SlotsAreIndependent(s: State, es: seq<Step>, k: nat, t: State)
    requires Bounded(s) && ValidRun(s, es) && k < |s.aps| && Alone(s, k, t)
    ensures ValidRun(t, SeenRun(s, es, k))
    ensures Alone(Run(s, es), k, Run(t, SeenRun(s, es, k)))
    decreases |es|
  {
    if es != [] {
      var seen := Seen(s, es[0], k);
      StepAlone(s, es[0], k, t);
      StaysBounded(s, es[0]);
      SlotsAreIndependent(Next(s, es[0]), es[1..], k, Run(t, seen));
      RunAppend(t, seen, SeenRun(Next(s, es[0]), es[1..], k));
    }
  }

  lemma CopyOfRecord(m: Memory, k: nat) returns (copy: Memory)
    ensures SameView(m, k, copy)
  {
    copy := map[];
    for o := 0 to SLOT_SIZE
      invariant forall q: nat :: q < o ==> RecordWord(copy, 0, q) == RecordWord(m, k, q)
    {
      copy := Write32(copy, SlotRecord(0) + o, RecordWord(m, k, o));
    }
  }

  /** Such a machine exists for every slot, and starts where the whole machine starts. */
  lemma OwnMachine(s: State, k: nat) returns (t: State)
    requires Shaped(s) && k < |s.aps|
    ensures Alone(s, k, t)
    ensures Initial(s) ==> Initial(t)
  {
    hide SameView, Read64, Read32, RecordWord;
    var mem := CopyOfRecord(s.mem, k);
    var bsp := if !s.bsp.Idle? && s.bsp.slot == k then OnSlot0(s.bsp) else Idle;
    t := State(mem, bsp, [s.aps[k]], [s.hist[k]]);
    ViewReads(s.mem, k, mem, SLOT_JOB_FUNC);
    ViewReads(s.mem, k, mem, SLOT_JOB_DONE);
  }

  // ---- a torn pointer --------------------------------------------------------

  predicate PostsOnly(es: seq<Step>, func: Quad) {
    forall i :: 0 <= i < |es| && es[i].BeginStartJob? ==> es[i].job.func == func
  }

  /** The run `es`, which posts only `func`, leads from `s` to `c`. */
  ghost predicate Leads(s: State, es: seq<Step>, func: Quad, c: State)
    requires Shaped(s)
  {
    ValidRun(s, es) && Run(s, es) == c && PostsOnly(es, func)
  }

  lemma Extend(s: State, es: seq<Step>, func: Quad, c: State, e: Step) returns (es': seq<Step>, c': State)
    requires Shaped(s) && Leads(s, es, func, c) && Shaped(c) && Enabled(c, e)
    requires e.BeginStartJob? ==> e.job.func == func
    ensures Leads(s, es', func, c') && c' == Next(c, e)
  {
    es' := es + [e];
    OneStep(c, e);
    RunAppend(s, es, [e]);
    c' := Next(c, e);
  }

  lemma NoSteps(s: State, func: Quad)
    requires Shaped(s)
    ensures Leads(s, [], func, s)
  {
  }

  /** The BSP posts up to the moment between its two stores of FUNC. */
  lemma PostUpToLowHalf(s: State, k: nat, job: Job) returns (es: seq<Step>, c: State)
    requires Initial(s) && k < |s.aps|
    ensures Leads(s, es, job.func, c) && Shaped(c) && |c.aps| == |s.aps|
    ensures c.aps == s.aps && c.hist[k] == History([job], [], []) && c.bsp == PostFuncHi(k, job)
    ensures Read64(c.mem, SlotRecord(k) + SLOT_JOB_FUNC) == Lo(job.func)
  {
    hide Leads;
    es, c := [], s;
    NoSteps(s, job.func);
    es, c := Extend(s, es, job.func, c, BeginStartJob(k, job));
    es, c := Extend(s, es, job.func, c, BspTick);
    for half := 0 to 8
      invariant Leads(s, es, job.func, c) && Shaped(c) && |c.aps| == |s.aps|
      invariant c.bsp == if half < 8 then PostArg(k, job, half) else PostDone(k, job)
      invariant c.aps == s.aps && c.hist[k] == History([job], [], [])
      invariant Read64(c.mem, SlotRecord(k) + SLOT_JOB_FUNC) == 0
    {
      es, c := Extend(s, es, job.func, c, BspTick);
    }
    es, c := Extend(s, es, job.func, c, BspTick);
    es, c := Extend(s, es, job.func, c, BspTick);
  }

  /** A null job does become outstanding while its AP polls: startJob accepts it like
      any other. */
  lemma NullJobIsReached(s: State, k: nat, job: Job) returns (es: seq<Step>)
    requires Initial(s) && k < |s.aps| && job.func == 0
    ensures ValidRun(s, es) && PostsUntorn(es)
    ensures var c := Run(s, es);
            Outstanding(c, k, 1) && c.hist[k].posted[0] == job && c.aps[k].pc.Poll?
  {
    var c: State;
    es, c := PostUpToLowHalf(s, k, job);
    es, c := Extend(s, es, 0, c, BspTick);
  }

  /** A run in which the AP polls between the two halves of a torn pointer: it calls
      the low half. */
  lemma TornPointerMisfires(s: State, k: nat, job: Job) returns (es: seq<Step>)
    requires Initial(s) && k < |s.aps| && Torn(job.func)
    ensures ValidRun(s, es) && PostsOnly(es, job.func)
    ensures var h := Run(s, es).hist[k];
            h.posted == [job] && |h.calls| == 1 && h.calls[0].job.func == Lo(job.func) != job.func
  {
    var func, c := job.func, s;
    es, c := PostUpToLowHalf(s, k, job);
    es, c := Extend(s, es, func, c, ApTick(k, 0));
    for i := 0 to 4
      invariant Leads(s, es, func, c) && Shaped(c) && |c.aps| == |s.aps|
      invariant c.hist[k] == History([job], [], []) && c.aps[k].rax == Lo(func)
      invariant c.aps[k].pc == if i < 4 then LoadArg(i) else ClearFunc
    {
      es, c := Extend(s, es, func, c, ApTick(k, 0));
    }
    es, c := Extend(s, es, func, c, ApTick(k, 0));
    es, c := Extend(s, es, func, c, ApTick(k, 0));
    Halves(func);
  }

  /** Every run that posts only `func`, on every slot, calls exactly what was accepted. */
  ghost predicate AlwaysExact(s: State, func: Quad)
    requires Initial(s)
  {
    forall es, k :: ValidRun(s, es) && PostsOnly(es, func) && 0 <= k < |s.aps| ==> ExactCalls(Run(s, es).hist[k])
  }

  /** The two-store release is safe exactly for the pointers that are not torn, and
      not only for those below 2^32. */
  lemma ExactIffNotTorn(s: State, func: Quad)
    requires Initial(s) && |s.aps| > 0
    ensures AlwaysExact(s, func) <==> !Torn(func)
  {
    if Torn(func) {
      var es := TornPointerMisfires(s, 0, Job(func, 0, 0, 0, 0));
      var h := Run(s, es).hist[0];
      assert Jobs(h.calls)[0] != h.posted[0];
      assert !ExactCalls(h);
    } else {
      forall es, k | ValidRun(s, es) && PostsOnly(es, func) && 0 <= k < |s.aps|
        ensures ExactCalls(Run(s, es).hist[k])
      {
        RunsAreExact(s, es, k);
      }
    }
  }
}
