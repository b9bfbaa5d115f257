/**
 Properties of the flash driver's operations over every READY observation
 sequence: what a controller that is always ready sees, where a timeout
 leaves the controller, the mode each action is issued in, erase dispatch,
 and how writes relate to the span validator and the page list.
 */
module NvmcProperties {
  import opened Wrappers
  import opened Ready
  import opened Regions
  import opened Pages
  import opened Nvmc

  /** The first n READY reads all have bit 0 set. */
  ghost predicate ReadyFor(obs: seq<nat>, n: nat)
  {
    forall i: nat :: i < n ==> IsReady(ReadAt(obs, i))
  }

  /** On a controller ready at every read, every effect is issued and each
      wait takes exactly one read. */
  lemma {:induction false} ReadyHardwareCompletes(steps: seq<Event>, obs: seq<nat>)
    requires ReadyFor(obs, |steps|)
    ensures RunSteps(steps, obs) == Run(steps, Ok, |steps|)
    decreases |steps|
  {
    if |steps| > 0 {
      assert IsReady(ReadAt(obs, 0));
      ReadyAtOnce(obs);
      forall i: nat | i < |steps| - 1
        ensures IsReady(ReadAt(Drop(obs, 1), i))
      {
        assert IsReady(ReadAt(obs, 1 + i));
      }
      ReadyHardwareCompletes(steps[1..], Drop(obs, 1));
      assert [steps[0]] + steps[1..] == steps;
    }
  }

  /** erase_all, erase of a recognised page, and write all complete with
      three register-level effects and three reads on a ready controller. */
  lemma OperationsCompleteOnReadyHardware(page: Page, mr: Span, obs: seq<nat>)
    requires ReadyFor(obs, 3)
    ensures EraseAll(obs) == Run(EraseAllSteps, Ok, 3)
    ensures EraseCommand(page.name).Some? ==>
              Erase(page, obs) == Run(EraseSteps(EraseCommand(page.name).value, page.adr), Ok, 3)
    ensures Write(mr, obs) == Run(WriteSteps(mr), Ok, 3)
  {
    ReadyHardwareCompletes(EraseAllSteps, obs);
    ReadyHardwareCompletes(WriteSteps(mr), obs);
    if EraseCommand(page.name).Some? {
      ReadyHardwareCompletes(EraseSteps(EraseCommand(page.name).value, page.adr), obs);
    }
  }

  /** Every operation that completes leaves CONFIG in read-only mode. */
  lemma SuccessLeavesReadOnly(page: Page, mr: Span, obs: seq<nat>)
    ensures EraseAll(obs).outcome == Ok ==> LastConfig(EraseAll(obs).trace) == Some(CONFIG_REN)
    ensures Erase(page, obs).outcome == Ok ==> LastConfig(Erase(page, obs).trace) == Some(CONFIG_REN)
    ensures Write(mr, obs).outcome == Ok ==> LastConfig(Write(mr, obs).trace) == Some(CONFIG_REN)
  {
  }

  /** A timeout in the first ready-wait ends the operation after the single
      mode-enable write: the controller is left erase or write enabled. */
  lemma FirstWaitTimeoutLeavesArmed(page: Page, mr: Span, obs: seq<nat>)
    requires Wait4Ready(obs).TimedOut?
    ensures EraseAll(obs) == Run([Wr(CONFIG, CONFIG_EEN)], Timeout, MaxPolls)
    ensures Erase(page, obs) == Run([Wr(CONFIG, CONFIG_EEN)], Timeout, MaxPolls)
    ensures Write(mr, obs) == Run([Wr(CONFIG, CONFIG_WEN)], Timeout, MaxPolls)
    ensures LastConfig(EraseAll(obs).trace) == Some(CONFIG_EEN)
    ensures LastConfig(Write(mr, obs).trace) == Some(CONFIG_WEN)
  {
  }

  /** A three-effect operation, by the outcome of its three ready-waits:
      it stops right after the effect whose wait times out. */
  lemma {:induction false} ThreeStepRun(steps: seq<Event>, obs: seq<nat>)
    requires |steps| == 3
    ensures var w1 := Wait4Ready(obs);
            var obs2 := Drop(obs, w1.Polls());
            var w2 := Wait4Ready(obs2);
            var obs3 := Drop(obs2, w2.Polls());
            var w3 := Wait4Ready(obs3);
            RunSteps(steps, obs)
              == if w1.TimedOut? then Run(steps[..1], Timeout, MaxPolls)
                 else if w2.TimedOut? then Run(steps[..2], Timeout, w1.polls + MaxPolls)
                 else if w3.TimedOut? then Run(steps, Timeout, w1.polls + w2.polls + MaxPolls)
                 else Run(steps, Ok, w1.polls + w2.polls + w3.polls)
  {
    var w1 := Wait4Ready(obs);
    if w1.Ready? {
      RunStepsReady(steps, obs, w1.polls);
      var obs2 := Drop(obs, w1.polls);
      var w2 := Wait4Ready(obs2);
      if w2.Ready? {
        RunStepsReady(steps[1..], obs2, w2.polls);
        var obs3 := Drop(obs2, w2.polls);
        if Wait4Ready(obs3).Ready? {
          RunStepsReady(steps[2..], obs3, Wait4Ready(obs3).polls);
        }
        assert [steps[0]] + ([steps[1]] + [steps[2]]) == steps;
        assert [steps[0]] + [steps[1]] == steps[..2];
      }
    }
  }

  /** The CONFIG value left by a prefix of an enable, act, read-only sequence. */
  lemma LastConfigOfPrefix(enable: nat, act: Event, m: nat)
    requires !IsConfigWrite(act) && 0 < m <= 3
    ensures LastConfig([Wr(CONFIG, enable), act, Wr(CONFIG, CONFIG_REN)][..m])
            == if m < 3 then Some(enable) else Some(CONFIG_REN)
  {
    var steps := [Wr(CONFIG, enable), act, Wr(CONFIG, CONFIG_REN)];
    if m == 2 {
      assert steps[..2] == [Wr(CONFIG, enable), act];
      assert steps[..2][..1] == [Wr(CONFIG, enable)];
    } else if m == 1 {
      assert steps[..1] == [Wr(CONFIG, enable)];
    }
  }

  /** Where a timeout of erase_all leaves CONFIG: erase enabled when the
      first or second wait fails, read-only when the last wait fails
      (CONFIG:=REN was written but its completion never seen). */
  lemma EraseAllTimeoutLeavesConfig(obs: seq<nat>)
    ensures var r := EraseAll(obs);
            r.outcome == Timeout ==>
              LastConfig(r.trace) == if |r.trace| < 3 then Some(CONFIG_EEN) else Some(CONFIG_REN)
  {
    var r := EraseAll(obs);
    if r.outcome == Timeout {
      LastConfigOfPrefix(CONFIG_EEN, Wr(ERASEALL, 1), |r.trace|);
    }
  }

  /** Where a timeout of erase leaves CONFIG, as for erase_all. */
  lemma EraseTimeoutLeavesConfig(page: Page, obs: seq<nat>)
    ensures var r := Erase(page, obs);
            r.outcome == Timeout ==>
              LastConfig(r.trace) == if |r.trace| < 3 then Some(CONFIG_EEN) else Some(CONFIG_REN)
  {
    var r := Erase(page, obs);
    if r.outcome == Timeout {
      if |r.trace| == 1 {
        assert r.trace == [Wr(CONFIG, CONFIG_EEN)];
      } else {
        LastConfigOfPrefix(CONFIG_EEN, Wr(EraseCommand(page.name).value, page.adr), |r.trace|);
      }
    }
  }

  /** Where a timeout of write leaves CONFIG: write enabled when the first
      or second wait fails, read-only when the last wait fails. */
  lemma WriteTimeoutLeavesConfig(mr: Span, obs: seq<nat>)
    ensures var r := Write(mr, obs);
            r.outcome == Timeout ==>
              LastConfig(r.trace) == if |r.trace| < 3 then Some(CONFIG_WEN) else Some(CONFIG_REN)
  {
    var r := Write(mr, obs);
    if r.outcome == Timeout {
      LastConfigOfPrefix(CONFIG_WEN, WrMem32(mr.adr, mr.size / 4), |r.trace|);
    }
  }

  /** A controller ready on the first read and never after: erase_all writes
      erase enable and erase all, then fails; CONFIG:=REN is never written. */
  lemma EraseAllSecondWaitTimeout()
    ensures EraseAll([1, 0, 0, 0, 0, 0])
            == Run([Wr(CONFIG, CONFIG_EEN), Wr(ERASEALL, 1)], Timeout, 1 + MaxPolls)
    ensures LastConfig(EraseAll([1, 0, 0, 0, 0, 0]).trace) == Some(CONFIG_EEN)
  {
    var obs: seq<nat> := [1, 0, 0, 0, 0, 0];
    var rest: seq<nat> := [0, 0, 0, 0, 0];
    assert Wait4Ready(obs) == Ready(1);
    assert Drop(obs, 1) == rest;
    NeverReadyTimesOut(rest);
    RunStepsReady(EraseAllSteps, obs, 1);
    var tail := [Wr(ERASEALL, 1), Wr(CONFIG, CONFIG_REN)];
    assert EraseAllSteps[1..] == tail;
    assert RunSteps(tail, rest) == Run([Wr(ERASEALL, 1)], Timeout, MaxPolls);
    LastConfigOfPrefix(CONFIG_EEN, Wr(ERASEALL, 1), 2);
    assert EraseAllSteps[..2] == [Wr(CONFIG, CONFIG_EEN), Wr(ERASEALL, 1)];
  }

  /** Five reads with bit 0 clear make the wait time out. */
  lemma NeverReadyTimesOut(obs: seq<nat>)
    requires |obs| == MaxPolls && forall i :: 0 <= i < |obs| ==> obs[i] == 0
    ensures Wait4Ready(obs).TimedOut?
  {
    assert forall j: nat :: j < MaxPolls ==> !IsReady(ReadAt(obs, j));
  }

  /** An erase of a page whose region name is not recognised, after a
      successful erase-enable wait, leaves the controller erase enabled. */
  lemma BadPageLeavesEraseEnabled(page: Page, obs: seq<nat>)
    requires EraseCommand(page.name).None? && Wait4Ready(obs).Ready?
    ensures Erase(page, obs).outcome == BadPageName(page.name)
    ensures LastConfig(Erase(page, obs).trace) == Some(CONFIG_EEN)
  {
  }

  /** erase_all times out with nothing after the enable write exactly when
      the first wait times out; in every timeout the erase-all command is
      issued only if the enable wait succeeded. */
  lemma EraseAllTimeoutPoint(obs: seq<nat>)
    ensures (EraseAll(obs).outcome == Timeout && |EraseAll(obs).trace| == 1) <==> Wait4Ready(obs).TimedOut?
    ensures Wr(ERASEALL, 1) in EraseAll(obs).trace ==> Wait4Ready(obs).Ready?
  {
  }

  /** A command effect: an erase command or a word transfer. */
  predicate IsAction(e: Event)
  {
    || (e.Wr? && e.reg in {ERASEALL, ERASEPAGE, ERASEUICR})
    || e.WrMem32?
  }

  /** Every erase command is issued while the controller is erase enabled
      and every word transfer while it is write enabled. */
  ghost predicate Armed(trace: seq<Event>)
  {
    forall i :: 0 <= i < |trace| ==>
      && (IsAction(trace[i]) && trace[i].Wr? ==> LastConfig(trace[..i]) == Some(CONFIG_EEN))
      && (trace[i].WrMem32? ==> LastConfig(trace[..i]) == Some(CONFIG_WEN))
  }

  lemma ArmedPrefix(trace: seq<Event>, m: nat)
    requires Armed(trace) && m <= |trace|
    ensures Armed(trace[..m])
  {
    forall i | 0 <= i < m
      ensures trace[..m][..i] == trace[..i]
    {
    }
  }

  lemma ArmedSteps(cmd: Reg, adr: nat, mr: Span)
    ensures Armed(EraseAllSteps)
    ensures Armed(EraseSteps(cmd, adr))
    ensures Armed(WriteSteps(mr))
  {
  }

  /** Whatever the controller answers, each operation enters the matching
      mode before it issues its command. */
  lemma OperationsArmBeforeActing(page: Page, mr: Span, obs: seq<nat>)
    ensures Armed(EraseAll(obs).trace)
    ensures Armed(Erase(page, obs).trace)
    ensures Armed(Write(mr, obs).trace)
  {
    ArmedSteps(ERASEPAGE, page.adr, mr);
    ArmedPrefix(EraseAllSteps, |EraseAll(obs).trace|);
    ArmedPrefix(WriteSteps(mr), |Write(mr, obs).trace|);
    EraseArmed(page, obs);
  }

  lemma EraseArmed(page: Page, obs: seq<nat>)
    ensures Armed(Erase(page, obs).trace)
  {
    var r := Erase(page, obs);
    if |r.trace| == 1 {
      assert r.trace == [Wr(CONFIG, CONFIG_EEN)];
    } else {
      var cmd := EraseCommand(page.name).value;
      ArmedSteps(cmd, page.adr, Span(0, 0));
      ArmedPrefix(EraseSteps(cmd, page.adr), |r.trace|);
    }
  }

  /** RunSteps makes progress according to the READY reads alone: two step
      lists of the same length get as far, with the same reads. */
  lemma {:induction false} ProgressIndependentOfSteps(s1: seq<Event>, s2: seq<Event>, obs: seq<nat>)
    requires |s1| == |s2|
    ensures RunSteps(s1, obs).outcome == RunSteps(s2, obs).outcome
    ensures RunSteps(s1, obs).polls == RunSteps(s2, obs).polls
    ensures |RunSteps(s1, obs).trace| == |RunSteps(s2, obs).trace|
    decreases |s1|
  {
    if |s1| > 0 && Wait4Ready(obs).Ready? {
      ProgressIndependentOfSteps(s1[1..], s2[1..], Drop(obs, Wait4Ready(obs).polls));
    }
  }

  /** A code-1 page and a UICR page at the same address get as far on the
      same controller, and are erased with different commands. */
  lemma EraseDispatchByName(adr: nat, obs: seq<nat>)
    ensures var t1, t2 := Erase(Page(Flash1Name, adr, PageSize), obs).trace,
                          Erase(Page(UicrName, adr, PageSize), obs).trace;
            && |t1| == |t2|
            && (|t1| > 1 ==> t1[1] == Wr(ERASEPAGE, adr) && t2[1] == Wr(ERASEUICR, adr))
  {
    ProgressIndependentOfSteps(EraseSteps(ERASEPAGE, adr), EraseSteps(ERASEUICR, adr), obs);
  }

  /** The firmware region's pages are erased with the page-erase command. */
  lemma FirmwarePagesUsePageErase(f: Flash, page: Page)
    requires page.name == FirmwareRegion(f)
    ensures EraseCommand(page.name) == Some(ERASEPAGE)
  {
  }

  /** write does not consult the span validator: on a ready controller any
      span, whatever check_region says of it, is transferred. */
  lemma WriteIgnoresValidator(f: Flash, mr: Span, obs: seq<nat>)
    requires ReadyFor(obs, 3)
    ensures Write(mr, obs).outcome == Ok
    ensures WrMem32(mr.adr, mr.size / 4) in Write(mr, obs).trace
  {
    OperationsCompleteOnReadyHardware(Page(Flash1Name, 0, PageSize), mr, obs);
    assert WriteSteps(mr)[1] == WrMem32(mr.adr, mr.size / 4);
  }

  /** In particular a misaligned span, which check_region rejects, is
      still transferred, truncated to whole words. */
  lemma MisalignedWriteStillTransfers(f: Flash, obs: seq<nat>)
    requires ReadyFor(obs, 3)
    ensures CheckSpan(f, Span(2, 6)) == Some(NotAligned)
    ensures WrMem32(2, 1) in Write(Span(2, 6), obs).trace
  {
    WriteIgnoresValidator(f, Span(2, 6), obs);
  }

  /** The transfer of a completed write of an accepted span covers exactly
      the span's bytes, inside code-1 or UICR. */
  lemma ValidatedWriteCoversSpan(f: Flash, mr: Span, obs: seq<nat>)
    requires CheckSpan(f, mr) == None
    requires Write(mr, obs).outcome == Ok
    ensures Write(mr, obs).trace[1].WrMem32?
    ensures Write(mr, obs).trace[1].adr == mr.adr
    ensures Write(mr, obs).trace[1].words * 4 == mr.size
    ensures Contains(f.code1, mr) || Contains(f.uicr, mr)
  {
  }

  /** The sector list is the code-1 pages followed by the UICR pages. */
  lemma SectorListOrder(fp: seq<Page>, up: seq<Page>, flash1: Region, uicr: Region)
    ensures |SectorList(NewFlash(fp, up, flash1, uicr))| == |fp| + |up|
    ensures forall i :: 0 <= i < |fp| ==> SectorList(NewFlash(fp, up, flash1, uicr))[i] == fp[i]
    ensures forall i :: 0 <= i < |up| ==> SectorList(NewFlash(fp, up, flash1, uicr))[|fp| + i] == up[i]
  {
  }

  /** With pages tagged by the names of their regions, no page of the
      sector list makes erase fail on its name, and each is erased with the
      command of its own region. */
  lemma SectorPagesErasable(fp: seq<Page>, up: seq<Page>, flash1: Region, uicr: Region, obs: seq<nat>)
    requires TaggedAs(fp, Flash1Name) && TaggedAs(up, UicrName)
    ensures forall p :: p in SectorList(NewFlash(fp, up, flash1, uicr)) ==>
              !Erase(p, obs).outcome.BadPageName?
    ensures forall i :: 0 <= i < |fp| ==> EraseCommand(fp[i].name) == Some(ERASEPAGE)
    ensures forall i :: 0 <= i < |up| ==> EraseCommand(up[i].name) == Some(ERASEUICR)
  {
  }

  /** A whole page of a word-aligned tiling of code-1 or UICR is a span the
      validator accepts. */
  lemma TiledPagesAreWritable(fp: seq<Page>, up: seq<Page>, f: Flash)
    requires f.code1.base % 4 == 0 && f.uicr.base % 4 == 0
    requires Tiles(fp, Flash1Name, f.code1, PageSize) && Tiles(up, UicrName, f.uicr, PageSize)
    ensures forall i :: 0 <= i < |fp| ==> CheckSpan(f, PageSpan(fp[i])) == None
    ensures forall i :: 0 <= i < |up| ==> CheckSpan(f, PageSpan(up[i])) == None
  {
  }
}
