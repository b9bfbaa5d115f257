/**
 The Nordic flash driver (`class flash`): its page list and regions, and
 the erase-all, erase-page and write sequences it drives through the NVMC
 (non-volatile memory controller) registers.

 An operation is a function of the injected READY observations. Its
 result records the register writes and bulk word transfers issued, in
 order, the outcome, and how many READY reads were made. A ready-wait that
 times out, and an unrecognised page name, end the operation at once, as
 the driver's failing asserts do.
 */
module Nvmc {
  import opened Wrappers
  import opened Ready
  import opened Regions
  import opened Pages

  /** Values of NVMC.CONFIG. */
  const CONFIG_REN: nat := 0  // read enable
  const CONFIG_WEN: nat := 1  // write enable
  const CONFIG_EEN: nat := 2  // erase enable

  /** The NVMC registers the driver writes. */
  datatype Reg = CONFIG | ERASEALL | ERASEPAGE | ERASEUICR

  /** A hardware effect: a register write, or a transfer of `words` 32-bit
      words to `adr` through the CPU's memory interface. */
  datatype Event = Wr(reg: Reg, value: nat) | WrMem32(adr: nat, words: nat)

  datatype Outcome = Ok | Timeout | BadPageName(name: string)

  /** What an operation did: its effects in order, how it ended, and the
      number of READY reads it made. */
  datatype Run = Run(trace: seq<Event>, outcome: Outcome, polls: nat)

  /** The driver state: its page list and the two writable regions. */
  datatype Flash = Flash(pages: seq<Page>, code1: Region, uicr: Region)

  /** `flash.__init__`: the flash-1 pages followed by the UICR pages, and a
      region for each of the two areas. No hardware access is made. */
  function NewFlash(flash1Pages: seq<Page>, uicrPages: seq<Page>, flash1: Region, uicr: Region): (f: Flash)
    ensures |f.pages| == |flash1Pages| + |uicrPages|
    ensures forall i :: 0 <= i < |flash1Pages| ==> f.pages[i] == flash1Pages[i]
    ensures forall i :: 0 <= i < |uicrPages| ==> f.pages[|flash1Pages| + i] == uicrPages[i]
    ensures f.code1 == flash1 && f.uicr == uicr
  {
    Flash(flash1Pages + uicrPages, flash1, uicr)
  }

  /** `sector_list`: the page list built at construction, unchanged. */
  function SectorList(f: Flash): (pages: seq<Page>)
    ensures |pages| == |f.pages|
    ensures forall i :: 0 <= i < |pages| ==> pages[i] == f.pages[i]
  {
    f.pages
  }

  /** `firmware_region`: firmware goes to the code-1 flash region. */
  function FirmwareRegion(f: Flash): (name: string)
    ensures name == Flash1Name
    ensures EraseCommand(name) == Some(ERASEPAGE)
  {
    Flash1Name
  }

  /** `check_region` against the driver's own regions. */
  function CheckSpan(f: Flash, x: Span): Option<Reason>
  {
    CheckRegion(f.code1, f.uicr, x)
  }

  /** A write of the CONFIG register, which sets the controller mode. */
  predicate IsConfigWrite(e: Event)
  {
    e.Wr? && e.reg == CONFIG
  }

  /** The value of the last CONFIG write of a trace: the mode the controller
      is left in, when the trace sets one. */
  function LastConfig(trace: seq<Event>): (v: Option<nat>)
    ensures v.None? <==> forall i :: 0 <= i < |trace| ==> !IsConfigWrite(trace[i])
    ensures v.Some? ==>
              exists i :: 0 <= i < |trace| && trace[i] == Wr(CONFIG, v.value)
                          && forall j :: i < j < |trace| ==> !IsConfigWrite(trace[j])
  {
    if |trace| == 0 then None
    else if IsConfigWrite(trace[|trace| - 1]) then Some(trace[|trace| - 1].value)
    else LastConfig(trace[..|trace| - 1])
  }

  /** Issue each effect in turn, each followed by a ready-wait; stop after
      the effect whose wait times out. */
  function RunSteps(steps: seq<Event>, obs: seq<nat>): (r: Run)
    ensures r.outcome == Ok || r.outcome == Timeout
    ensures r.outcome == Ok ==> r.trace == steps && |steps| <= r.polls <= MaxPolls * |steps|
    ensures r.outcome == Timeout ==>
              && 0 < |r.trace| <= |steps|
              && r.trace == steps[..|r.trace|]
              && MaxPolls <= r.polls <= MaxPolls * |r.trace|
              && forall j: nat :: r.polls - MaxPolls <= j < r.polls ==> !IsReady(ReadAt(obs, j))
    decreases |steps|
  {
    if |steps| == 0 then Run([], Ok, 0)
    else
      match Wait4Ready(obs)
      case TimedOut => Run([steps[0]], Timeout, MaxPolls)
      case Ready(k) =>
        var r := RunSteps(steps[1..], Drop(obs, k));
        PrefixCons(steps, r.trace);
        UnreadyAfterDrop(obs, k, r.polls);
        Run([steps[0]] + r.trace, r.outcome, k + r.polls)
  }

  /** The run stopped at a failing wait: every effect but the last completed
      its ready-wait, and the wait after the last effect used up all its
      reads without seeing the controller ready. */
  ghost predicate StoppedAtFailingWait(obs: seq<nat>, r: Run)
  {
    && 0 < |r.trace|
    && var done := RunSteps(r.trace[..|r.trace| - 1], obs);
       && done.outcome == Ok
       && Wait4Ready(Drop(obs, done.polls)).TimedOut?
       && r.polls == done.polls + MaxPolls
  }

  lemma DropDrop(obs: seq<nat>, k: nat, p: nat)
    ensures Drop(Drop(obs, k), p) == Drop(obs, k + p)
  {
  }

  /** TimeoutAtFailingWait for any run, stated as an implication. */
  lemma TimeoutStops(steps: seq<Event>, obs: seq<nat>)
    ensures RunSteps(steps, obs).outcome == Timeout ==> StoppedAtFailingWait(obs, RunSteps(steps, obs))
  {
    if RunSteps(steps, obs).outcome == Timeout {
      TimeoutAtFailingWait(steps, obs);
    }
  }

  /** One step of RunSteps when the first wait succeeds after k reads. */
  lemma RunStepsReady(steps: seq<Event>, obs: seq<nat>, k: nat)
    requires 0 < |steps| && Wait4Ready(obs) == Ready(k)
    ensures var rest := RunSteps(steps[1..], Drop(obs, k));
            RunSteps(steps, obs) == Run([steps[0]] + rest.trace, rest.outcome, k + rest.polls)
  {
  }

  /** A run that times out ends with the effect whose wait failed: nothing
      is issued after a failing wait. */
  lemma {:induction false} TimeoutAtFailingWait(steps: seq<Event>, obs: seq<nat>)
    requires RunSteps(steps, obs).outcome == Timeout
    ensures StoppedAtFailingWait(obs, RunSteps(steps, obs))
    decreases |steps|
  {
    match Wait4Ready(obs)
    case TimedOut =>
      TimeoutAtFirstWait(steps, obs);
    case Ready(k) =>
      RunStepsReady(steps, obs, k);
      var rest := RunSteps(steps[1..], Drop(obs, k));
      TimeoutAtFailingWait(steps[1..], Drop(obs, k));
      TimeoutStepBack(steps[0], rest, obs, k);
  }

  lemma TimeoutAtFirstWait(steps: seq<Event>, obs: seq<nat>)
    requires 0 < |steps| && Wait4Ready(obs).TimedOut?
    ensures StoppedAtFailingWait(obs, RunSteps(steps, obs))
  {
    assert RunSteps(steps, obs) == Run([steps[0]], Timeout, MaxPolls);
    assert [steps[0]][..0] == [];
    assert Drop(obs, 0) == obs;
  }

  /** Dropping the last element of a sequence with one element put in front. */
  lemma InitOfCons(first: Event, t: seq<Event>)
    requires 0 < |t|
    ensures ([first] + t)[..|t|] == [first] + t[..|t| - 1]
  {
  }

  /** Putting one completed effect in front of a run that stopped at a
      failing wait gives a run that stopped at the same wait. */
  lemma TimeoutStepBack(first: Event, rest: Run, obs: seq<nat>, k: nat)
    requires Wait4Ready(obs) == Ready(k)
    requires StoppedAtFailingWait(Drop(obs, k), rest)
    ensures StoppedAtFailingWait(obs, Run([first] + rest.trace, rest.outcome, k + rest.polls))
  {
    var tail := rest.trace[..|rest.trace| - 1];
    var doneRest := RunSteps(tail, Drop(obs, k));
    InitOfCons(first, rest.trace);
    var init := [first] + tail;
    assert init[1..] == tail;
    RunStepsReady(init, obs, k);
    assert RunSteps(init, obs) == Run([first] + doneRest.trace, Ok, k + doneRest.polls);
    DropDrop(obs, k, doneRest.polls);
  }

  /** Putting back the first step in front of a prefix of the other steps
      gives a prefix of all the steps. */
  lemma PrefixCons(steps: seq<Event>, t: seq<Event>)
    requires 0 < |steps| && |t| < |steps| && t == steps[1..][..|t|]
    ensures [steps[0]] + t == steps[..|t| + 1]
  {
  }

  /** Reads that were not ready after dropping k observations are reads
      k positions further on in the full observations. */
  lemma UnreadyAfterDrop(obs: seq<nat>, k: nat, p: nat)
    ensures && MaxPolls <= p
            && (forall j: nat :: p - MaxPolls <= j < p ==> !IsReady(ReadAt(Drop(obs, k), j)))
            ==> forall j: nat :: k + p - MaxPolls <= j < k + p ==> !IsReady(ReadAt(obs, j))
  {
    forall j: nat | MaxPolls <= p && k + p - MaxPolls <= j < k + p
                    && (forall j': nat :: p - MaxPolls <= j' < p ==> !IsReady(ReadAt(Drop(obs, k), j')))
      ensures !IsReady(ReadAt(obs, j))
    {
      assert ReadAt(Drop(obs, k), j - k) == ReadAt(obs, j);
    }
  }

  /** The effects of a complete erase-all. */
  const EraseAllSteps: seq<Event> := [Wr(CONFIG, CONFIG_EEN), Wr(ERASEALL, 1), Wr(CONFIG, CONFIG_REN)]

  /** `erase_all`: erase enable, erase everything (code 1 and UICR), back to
      read only, each followed by a ready-wait. Ok stands for the return value 0. */
  function EraseAll(obs: seq<nat>): (r: Run)
    ensures r.outcome == Ok ==> r.trace == EraseAllSteps
    ensures r.outcome == Timeout || r.outcome == Ok
    ensures r.outcome == Timeout ==> 0 < |r.trace| <= 3 && r.trace == EraseAllSteps[..|r.trace|]
    ensures r.outcome == Timeout ==> StoppedAtFailingWait(obs, r)
    ensures r.polls <= 3 * MaxPolls
  {
    TimeoutStops(EraseAllSteps, obs);
    RunSteps(EraseAllSteps, obs)
  }

  /** The erase command register for a page of the named region, if any. */
  function EraseCommand(name: string): (cmd: Option<Reg>)
    ensures cmd == Some(ERASEPAGE) <==> name == Flash1Name
    ensures cmd == Some(ERASEUICR) <==> name == UicrName
    ensures cmd.Some? ==> cmd.value == ERASEPAGE || cmd.value == ERASEUICR
  {
    if name == Flash1Name then Some(ERASEPAGE)
    else if name == UicrName then Some(ERASEUICR)
    else None
  }

  /** The effects of a complete erase with command register cmd. */
  function EraseSteps(cmd: Reg, adr: nat): seq<Event>
  {
    [Wr(CONFIG, CONFIG_EEN), Wr(cmd, adr), Wr(CONFIG, CONFIG_REN)]
  }

  /** `erase`: erase enable and wait, then erase the page with the command
      its region name selects, wait, back to read only and wait. An
      unrecognised name fails after erase enable has been written. */
  function Erase(page: Page, obs: seq<nat>): (r: Run)
    ensures r.outcome == Ok ==>
              && EraseCommand(page.name).Some?
              && r.trace == [Wr(CONFIG, CONFIG_EEN), Wr(EraseCommand(page.name).value, page.adr), Wr(CONFIG, CONFIG_REN)]
    ensures r.outcome.BadPageName? <==>
              EraseCommand(page.name).None? && Wait4Ready(obs).Ready?
    ensures r.outcome.BadPageName? ==>
              r.outcome.name == page.name && r.trace == [Wr(CONFIG, CONFIG_EEN)] && r.polls <= MaxPolls
    ensures r.outcome == Timeout ==>
              && 0 < |r.trace| <= 3
              && r.trace[0] == Wr(CONFIG, CONFIG_EEN)
              && (|r.trace| > 1 ==>
                    && EraseCommand(page.name).Some?
                    && r.trace == EraseSteps(EraseCommand(page.name).value, page.adr)[..|r.trace|])
    ensures r.outcome == Timeout ==> StoppedAtFailingWait(obs, r)
    ensures r.polls <= 3 * MaxPolls
  {
    // The command is picked before any hardware access here; the choice is
    // pure, so the effects are the same as choosing after erase enable.
    match EraseCommand(page.name)
    case Some(cmd) =>
      TimeoutStops(EraseSteps(cmd, page.adr), obs);
      RunSteps(EraseSteps(cmd, page.adr), obs)
    case None =>
      TimeoutStops([Wr(CONFIG, CONFIG_EEN)], obs);
      var enable := RunSteps([Wr(CONFIG, CONFIG_EEN)], obs);
      if enable.outcome == Ok then Run(enable.trace, BadPageName(page.name), enable.polls)
      else enable
  }

  /** The effects of a complete write of span mr. */
  function WriteSteps(mr: Span): seq<Event>
  {
    [Wr(CONFIG, CONFIG_WEN), WrMem32(mr.adr, mr.size / 4), Wr(CONFIG, CONFIG_REN)]
  }

  /** `write`: write enable, transfer `mr.size >> 2` words to `mr.adr`, back
      to read only, each followed by a ready-wait. The span is not checked. */
  function Write(mr: Span, obs: seq<nat>): (r: Run)
    ensures r.outcome == Ok ==>
              r.trace == [Wr(CONFIG, CONFIG_WEN), WrMem32(mr.adr, mr.size / 4), Wr(CONFIG, CONFIG_REN)]
    ensures r.outcome == Timeout || r.outcome == Ok
    ensures r.outcome == Timeout ==> 0 < |r.trace| <= 3 && r.trace == WriteSteps(mr)[..|r.trace|]
    ensures r.outcome == Timeout ==> StoppedAtFailingWait(obs, r)
    ensures r.polls <= 3 * MaxPolls
  {
    TimeoutStops(WriteSteps(mr), obs);
    RunSteps(WriteSteps(mr), obs)
  }
}
