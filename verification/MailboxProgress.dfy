/** That jobs of the mailbox are finished: how many accesses it takes until a job is done,
    its result answered, and the slot open for the next one. */
module MailboxProgress {
  import opened Doubles
  import opened Physical
  import opened Mailbox

  /** startJob has returned, its job is the `m`-th of the slot and has a pointer, and DONE
      is still 0. */
  ghost predicate InHand(s: State, k: nat, m: nat)
    requires Shaped(s) && k < |s.aps|
  {
    && Detached(s.bsp, k) && |s.hist[k].posted| == m > 0 && s.hist[k].posted[m - 1].func != 0
    && Read32(s.mem, SlotRecord(k) + SLOT_JOB_DONE) == 0
  }

  /** The `m`-th job is over (or, with 0, there was none yet): DONE is 1, FUNC is 0, RES
      holds what the call returned, the call was that of the job, and the AP polls. */
  ghost predicate Finished(s: State, k: nat, m: nat)
    requires Shaped(s) && k < |s.aps|
  {
    var h, rec := s.hist[k], SlotRecord(k);
    && |h.posted| == |h.calls| == m
    && (m > 0 ==> h.calls[m - 1].job == h.posted[m - 1]
                  && Read64(s.mem, rec + SLOT_JOB_RES) == h.calls[m - 1].result)
    && Read32(s.mem, rec + SLOT_JOB_DONE) == 1
    && Read64(s.mem, rec + SLOT_JOB_FUNC) == 0
    && s.aps[k].pc.Poll?
  }

  /** Accesses the AP still has to make until DONE is set: a poll, four loads, the clearing
      of FUNC, the call and two stores. */
  function StepsToDone(pc: ApPc): (n: nat)
    ensures n <= 9
  {
    match pc
    case Poll => 9
    case LoadArg(i) => if i <= 8 then 8 - i else 0
    case ClearFunc => 4
    case CallFunc => 3
    case StoreResult => 2
    case StoreDone => 1
  }

  lemma JobIsServed(s: State, k: nat, m: nat)
    requires Inv(s) && k < |s.aps| && InHand(s, k, m)
    ensures ExactCalls(s.hist[k]) && SlotServing(s, k)
  {
    assert SlotInv(s, k);
  }

  lemma LastCallIsLastJob(h: History)
    requires ExactCalls(h) && |h.calls| == |h.posted| > 0
    ensures h.calls[|h.calls| - 1].job == h.posted[|h.posted| - 1]
  {
    assert Jobs(h.calls)[|h.calls| - 1] == h.posted[|h.calls| - 1];
  }

  /** A step of the AP brings the job nearer to its end, the last one ends it, and any
      other step leaves it in hand. */
  lemma StepTowardsDone(s: State, e: Step, k: nat, m: nat)
    requires Inv(s) && Enabled(s, e) && (e.BeginStartJob? ==> !Torn(e.job.func))
    requires k < |s.aps| && InHand(s, k, m)
    ensures var s' := Next(s, e);
            if e.ApTick? && e.slot == k then
              if s.aps[k].pc.StoreDone? then Finished(s', k, m)
              else InHand(s', k, m) && StepsToDone(s'.aps[k].pc) + 1 == StepsToDone(s.aps[k].pc)
            else InHand(s', k, m) && s'.aps[k] == s.aps[k]
  {
    hide ExactCalls, ExactAnswers, Jobs, ArgsStored;
    JobIsServed(s, k, m);
    if e.ApTick? && e.slot == k {
      OwnStepTowardsDone(s, k, m, e.result);
    } else {
      OtherStepKeepsHand(s, e, k, m);
    }
  }

  lemma OwnStepTowardsDone(s: State, k: nat, m: nat, result: Quad)
    requires Inv(s) && k < |s.aps| && InHand(s, k, m) && ExactCalls(s.hist[k]) && SlotServing(s, k)
    ensures var s' := ApStep(s, k, result);
            if s.aps[k].pc.StoreDone? then Finished(s', k, m)
            else InHand(s', k, m) && StepsToDone(s'.aps[k].pc) + 1 == StepsToDone(s.aps[k].pc)
  {
    hide ExactCalls, ExactAnswers, Jobs, ArgsStored, SlotInv;
    if s.aps[k].pc.StoreDone? {
      LastCallIsLastJob(s.hist[k]);
    }
  }

  lemma OtherStepKeepsHand(s: State, e: Step, k: nat, m: nat)
    requires Inv(s) && Enabled(s, e) && k < |s.aps| && InHand(s, k, m) && !(e.ApTick? && e.slot == k)
    ensures InHand(Next(s, e), k, m) && Next(s, e).aps[k] == s.aps[k]
  {
    hide ExactCalls, ExactAnswers, Jobs, ArgsStored, SlotInv;
    match e
    case ApTick(j, result) =>
      assert SlotInv(s, j);
      ApBounds(s, j);
      ApStepElsewhere(s, j, result, k);
    case BspTick =>
      if s.bsp.slot != k {
        BspBounds(s);
        BspStepElsewhere(s, k);
      }
    case _ =>
  }

  lemma ApBounds(s: State, k: nat)
    requires Shaped(s) && k < |s.aps| && SlotInv(s, k)
    ensures s.aps[k].pc.LoadArg? ==> s.aps[k].pc.i < 4
  {
  }

  lemma BspBounds(s: State)
    requires Inv(s)
    ensures s.bsp.PostArg? ==> s.bsp.half < 8
  {
    if s.bsp.PostArg? {
      assert SlotInv(s, s.bsp.slot);
    }
  }

  /** Whatever else happens in between, the accesses that are left, at most nine, finish
      the job. */
  lemma {:induction false} JobIsFinished(s: State, es: seq<Step>, k: nat, m: nat) returns (n: nat)
    requires Inv(s) && ValidRun(s, es) && PostsUntorn(es) && k < |s.aps|
    requires InHand(s, k, m) && ApTicks(es, k) >= StepsToDone(s.aps[k].pc)
    ensures n <= |es| && ValidRun(s, es[..n]) && Finished(Run(s, es[..n]), k, m)
    ensures ApTicks(es[..n], k) == StepsToDone(s.aps[k].pc) <= 9
    decreases |es|
  {
    hide SlotInv, InHand, Finished, StepsToDone;
    TicksLeft(s, k, m);
    var e, s' := es[0], Next(s, es[0]);
    NextKeeps(s, e);
    StepTowardsDone(s, e, k, m);
    if e.ApTick? && e.slot == k && s.aps[k].pc.StoreDone? {
      n := 1;
      OneStep(s, e);
      assert es[..1] == [e] && [e][1..] == [];
    } else {
      var r := JobIsFinished(s', es[1..], k, m);
      n := r + 1;
      assert es[..n][0] == e && es[..n][1..] == es[1..][..r];
    }
  }

  lemma TicksLeft(s: State, k: nat, m: nat)
    requires Inv(s) && k < |s.aps| && InHand(s, k, m)
    ensures 1 <= StepsToDone(s.aps[k].pc) <= 9
    ensures s.aps[k].pc.StoreDone? ==> StepsToDone(s.aps[k].pc) == 1
  {
    JobIsServed(s, k, m);
  }

  // ---- waitJob and startJob return -------------------------------------------

  /** Only accesses: nothing is begun and nothing times out. */
  predicate OnlyTicks(es: seq<Step>) { forall i :: 0 <= i < |es| ==> es[i].BspTick? || es[i].ApTick? }

  function BspTicks(es: seq<Step>): nat {
    if es == [] then 0 else (if es[0].BspTick? then 1 else 0) + BspTicks(es[1..])
  }

  /** Accesses of the BSP until the call returns, once it need not wait any more. */
  function BspLeft(b: Bsp): nat {
    match b
    case Idle => 0
    case WaitFree(_, _) => 12
    case PostArg(_, _, half) => if half <= 8 then 11 - half else 0
    case PostDone(_, _) => 3
    case PostFuncLo(_, _) => 2
    case PostFuncHi(_, _) => 1
    case WaitDone(_) => 3
    case LoadResultLo(_) => 2
    case LoadResultHi(_, _) => 1
  }

  /** The AP of a finished slot changes nothing, and no other AP touches the slot. */
  lemma ApLeavesFinished(s: State, j: nat, result: Quad, k: nat, m: nat)
    requires Inv(s) && j < |s.aps| && k < |s.aps| && Finished(s, k, m)
    ensures var s' := ApStep(s, j, result);
            && Finished(s', k, m) && s'.bsp == s.bsp && s'.hist[k] == s.hist[k] && SameRecord(s.mem, s'.mem, k)
  {
    hide ExactCalls, ExactAnswers, Jobs, ArgsStored, SlotInv;
    if j == k {
      ApIdles(s, k, result);
    } else {
      assert SlotInv(s, j);
      ApBounds(s, j);
      ApStepElsewhere(s, j, result, k);
      hide ApStep;
    }
  }

  /** What is left to be answered: nothing read yet, or the low half of the result. */
  ghost predicate Answering(s: State, k: nat)
    requires Shaped(s) && k < |s.aps|
  {
    || s.bsp == WaitDone(k) || s.bsp == LoadResultLo(k)
    || s.bsp == LoadResultHi(k, Read32(s.mem, SlotRecord(k) + SLOT_JOB_RES))
  }

  /** A BSP that waits for a finished job answers with its result at the third access,
      once, whatever the APs do. */
  lemma {:induction false} WaitJobAnswers(s: State, es: seq<Step>, k: nat, m: nat)
    requires Inv(s) && ValidRun(s, es) && OnlyTicks(es) && k < |s.aps|
    requires m > 0 && Finished(s, k, m) && Answering(s, k) && BspTicks(es) == BspLeft(s.bsp)
    ensures var h, t := s.hist[k], Run(s, es);
            && t.bsp.Idle? && t.hist[k].posted == h.posted && t.hist[k].calls == h.calls
            && t.hist[k].answers == h.answers + [Answer(m, DoubleOf(h.calls[m - 1].result))]
    decreases |es|
  {
    hide SlotInv, DoubleOf;
    var e, s' := es[0], Next(s, es[0]);
    NextKeeps(s, e);
    match e
    case ApTick(j, result) =>
      ApLeavesFinished(s, j, result, k, m);
      hide Finished, ApStep;
      WaitJobAnswers(s', es[1..], k, m);
    case BspTick =>
      if s.bsp.LoadResultHi? {
        assert s'.hist[k].answers == s.hist[k].answers + [Answer(m, DoubleOf(s.hist[k].calls[m - 1].result))];
        hide Finished;
        IdleRests(s', es[1..], k);
      } else {
        WaitJobAnswers(s', es[1..], k, m);
      }
  }

  /** Without the BSP nothing is posted and nothing answered; a slot without a job in hand
      stays as it is. */
  lemma {:induction false} IdleRests(s: State, es: seq<Step>, k: nat)
    requires Inv(s) && ValidRun(s, es) && OnlyTicks(es) && BspTicks(es) == 0 && k < |s.aps|
    ensures Run(s, es).bsp == s.bsp && Run(s, es).hist[k].posted == s.hist[k].posted
    ensures Run(s, es).hist[k].answers == s.hist[k].answers
    ensures |s.hist[k].calls| == |s.hist[k].posted| ==> Run(s, es).hist[k] == s.hist[k]
    decreases |es|
  {
    if es != [] {
      NextKeeps(s, es[0]);
      RunInvariant(s, es[0], k);
      hide SlotInv, ApStep;
      IdleRests(Next(s, es[0]), es[1..], k);
    }
  }

  lemma RunInvariant(s: State, e: Step, k: nat)
    requires Inv(s) && Enabled(s, e) && e.ApTick? && k < |s.aps|
    ensures var s' := Next(s, e);
            && s'.bsp == s.bsp && s'.hist[k].posted == s.hist[k].posted && s'.hist[k].answers == s.hist[k].answers
            && (|s.hist[k].calls| == |s.hist[k].posted| ==> s'.hist[k] == s.hist[k])
  {
    hide ExactCalls, ExactAnswers, Jobs, ArgsStored;
    assert SlotInv(s, k);
  }

  lemma FreshSlotIsFinished(s: State, k: nat)
    requires Initial(s) && k < |s.aps|
    ensures Finished(s, k, 0)
  {
    assert s.hist[k] == History([], [], []);
  }

  /** A BSP that waits to post to a finished slot accepts at its first access. */
  lemma FinishedSlotAccepts(s: State, k: nat, job: Job, m: nat)
    requires Inv(s) && k < |s.aps| && Finished(s, k, m) && s.bsp == WaitFree(k, job)
    ensures var s' := BspStep(s);
            s'.bsp == PostArg(k, job, 0) && s'.hist[k].posted == s.hist[k].posted + [job] && s'.mem == s.mem
  {
  }

  /** startJob returns at the twelfth access from there on, having accepted its job once. */
  lemma {:induction false} StartJobReturns(s: State, es: seq<Step>, k: nat, job: Job, m: nat)
    requires Inv(s) && ValidRun(s, es) && OnlyTicks(es) && k < |s.aps|
    requires Finished(s, k, m) && s.bsp == WaitFree(k, job) && BspTicks(es) == 12
    ensures Run(s, es).bsp.Idle? && Run(s, es).hist[k].posted == s.hist[k].posted + [job]
    decreases |es|
  {
    hide SlotInv;
    var e, s' := es[0], Next(s, es[0]);
    NextKeeps(s, e);
    match e
    case ApTick(j, result) =>
      ApLeavesFinished(s, j, result, k, m);
      hide Finished, ApStep;
      StartJobReturns(s', es[1..], k, job, m);
    case BspTick =>
      FinishedSlotAccepts(s, k, job, m);
      hide Finished, BspStep;
      PostingEnds(s', es[1..], k);
  }

  predicate Posting(b: Bsp, k: nat) {
    !b.Idle? && b.slot == k && (b.PostArg? || b.PostDone? || b.PostFuncLo? || b.PostFuncHi?)
  }

  /** Posting never waits. */
  lemma {:induction false} PostingEnds(s: State, es: seq<Step>, k: nat)
    requires Inv(s) && ValidRun(s, es) && OnlyTicks(es) && k < |s.aps|
    requires (Posting(s.bsp, k) || s.bsp.Idle?) && BspTicks(es) == BspLeft(s.bsp)
    ensures Run(s, es).bsp.Idle? && Run(s, es).hist[k].posted == s.hist[k].posted
    decreases |es|
  {
    BspBounds(s);
    if es != [] {
      NextKeeps(s, es[0]);
      PostingStep(s, es[0], k);
      hide SlotInv, ApStep, BspStep;
      PostingEnds(Next(s, es[0]), es[1..], k);
    }
  }

  lemma PostingStep(s: State, e: Step, k: nat)
    requires Inv(s) && Enabled(s, e) && k < |s.aps| && (Posting(s.bsp, k) || s.bsp.Idle?)
    requires (e.BspTick? && !s.bsp.Idle?) || e.ApTick?
    ensures var s' := Next(s, e);
            && s'.hist[k].posted == s.hist[k].posted && (Posting(s'.bsp, k) || s'.bsp.Idle?)
            && BspLeft(s.bsp) == BspLeft(s'.bsp) + (if e.BspTick? then 1 else 0)
  {
    BspBounds(s);
    hide SlotInv;
  }

  /** And then, if its pointer is one that may be posted, the job is in the hands of the AP
      or finished already. */
  lemma PostedIsInHand(s: State, k: nat, m: nat)
    requires Inv(s) && k < |s.aps| && s.bsp.Idle? && |s.hist[k].posted| == m > 0 && s.hist[k].posted[m - 1].func != 0
    ensures InHand(s, k, m) || Finished(s, k, m)
  {
    assert SlotInv(s, k);
    if SlotFree(s, k) {
      LastCallIsLastJob(s.hist[k]);
    }
  }
}
