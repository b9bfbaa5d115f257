# Nordic NVMC flash driver — Dafny model

This project models the flash driver for Nordic chips (`class flash`). It
erases and writes the chip's internal flash through the NVMC (non-volatile
memory controller) registers. It also models two small STM32 SoC helpers:
the GPIO port address computation and the name-keyed SoC database.

The hardware is not simulated. The values that successive reads of the
NVMC `READY` register return are an injected sequence of naturals. Each
operation is a pure function of that sequence. It returns a `Run`:

- the trace of hardware effects, in order. An effect is a register write
  `Wr(reg, value)` to CONFIG, ERASEALL, ERASEPAGE or ERASEUICR, or a bulk
  transfer `WrMem32(adr, words)` through the CPU's memory interface;
- the outcome: `Ok`, `Timeout`, or `BadPageName(name)`;
- the number of READY reads made.

Modules:

- `Ready` (ready.dfy): the bounded ready-poll `__wait4ready`. It makes at
  most 5 reads of bit 0 of READY.
- `Regions` (regions.dfy): the write-span validator `check_region`, with
  its rules in their fixed order.
- `Pages` (pages.dfy): flash pages, the 1 KiB page size, and the layout a
  page list of a region is assumed to have.
- `Nvmc` (nvmc.dfy): the driver state, `sector_list`, `firmware_region`,
  and the `erase_all`, `erase` and `write` register sequences.
- `NvmcProperties` (nvmc_props.dfy): properties of those sequences over
  every READY sequence.
- `Stm32` (stm32.dfy): `gpio_n`, `db_insert` and `lookup`.

`erase_all` and `erase` return 0 (vendor/nordic/flash.py:100 and :118) and
`write` returns nothing (:120-130); all three are `Ok` here. Their
docstrings say "return non-zero for an error" (:90, :103), but the code
never returns non-zero. Every failure raises `AssertionError` from a
failing `assert`: the ready-wait timeout at :67 and the unrecognised page
name at :113. In the model, `Timeout` and `BadPageName` stand for that
raised `AssertionError`, not for a non-zero return, and the trace ends
there.

What the code does on those failure paths:

- a timeout ends the operation at the wait that fails, so no later write
  of the operation happens (:93-99, :106-117, :124-130). A timeout at the
  first or second wait leaves CONFIG at the enable value written at :92,
  :105 or :123. A timeout at the last wait comes after CONFIG:=REN was
  written (`FirstWaitTimeoutLeavesArmed`, `EraseAllTimeoutLeavesConfig`,
  `EraseTimeoutLeavesConfig`, `WriteTimeoutLeavesConfig`);
- `erase` writes `CONFIG := EEN` and waits (:105-106) before it tests the
  page name (:108-113). A bad name therefore leaves the controller erase
  enabled (`BadPageLeavesEraseEnabled`).

## Model

| member | source | states |
|---|---|---|
| Ready.Poll | vendor/nordic/flash.py:62-66 | From attempt i on, the loop is ready on the first read with bit 0 set, at or before read 5. It times out exactly when none of reads i..4 has bit 0 set. |
| Ready.Wait4Ready | vendor/nordic/flash.py:60-67 | The wait succeeds on the first of at most 5 reads whose bit 0 is set, after exactly that many reads. It times out iff none of the first 5 reads has bit 0 set, and never makes more than 5 reads. |
| Ready.WaitSeesOnlyBudget | vendor/nordic/flash.py:60-67 | A wait's outcome depends only on the first 5 READY reads. |
| Regions.CheckRegion | vendor/nordic/flash.py:73-83 | A misaligned address is rejected as "not 32-bit aligned", whatever the size and containment. An aligned address with a size that is not a multiple of 4 is rejected as "not a multiple of 32-bits". An aligned span of aligned size is accepted iff code-1 or UICR contains it, and is otherwise rejected as "not within flash". |
| Regions.ContainsIffCoversBytes | vendor/nordic/flash.py:79-82 | For a non-empty span, region containment means every byte of the span lies in the region. |
| Regions.AcceptedIffAlignedAndInsideOneRegion | vendor/nordic/flash.py:73-83 | A non-empty span is accepted iff its address and size are multiples of 4 and all its bytes lie in code-1 or all lie in UICR. |
| Regions.StraddlingSpanRejected | vendor/nordic/flash.py:79-83 | With the two regions disjoint, in either order, a span holding a byte of each is rejected. When it is aligned, the reason is "not within flash". |
| Regions.AcceptedSpanIsWholeWords | vendor/nordic/flash.py:75-78 | An accepted span starts on a word boundary and `size >> 2` words cover it exactly. |
| Pages.TilingCoversRegion | vendor/nordic/flash.py:52-55 | The sizes of the pages of a region's tiling add up to the region's size. This is a property of the assumed page layout, not of the driver. |
| Pages.TilingLayout | vendor/nordic/flash.py:52-55 | The pages of a tiling carry the region's name. They lie inside the region and are contiguous, ascending and non-overlapping. |
| Nvmc.LastConfig | vendor/nordic/flash.py:39-42 | Gives the value of the trace's last CONFIG write, with no CONFIG write after it. Gives None iff the trace writes no CONFIG. |
| Nvmc.NewFlash | vendor/nordic/flash.py:48-58 | The driver's page list is the flash1 pages followed by the UICR pages, and its two regions are code-1 and UICR. |
| Nvmc.SectorList | vendor/nordic/flash.py:69-71 | sector_list returns the page list built at construction, unchanged. |
| Nvmc.FirmwareRegion | vendor/nordic/flash.py:85-87 | firmware_region is always 'flash1', the region whose pages are erased with ERASEPAGE. |
| Nvmc.RunSteps | vendor/nordic/flash.py:89-99 | The effect-then-wait pattern. Ok means every effect was issued. Timeout means the trace is a non-empty prefix of the effects and the 5 reads just before the end all had bit 0 clear. Reads stay between one and 5 per issued effect. |
| Nvmc.TimeoutAtFailingWait | vendor/nordic/flash.py:60-67 | When a run times out, every effect but the last completed its wait, and the wait after the last effect timed out with 5 reads. Nothing is issued after the failing wait. |
| Nvmc.EraseAll | vendor/nordic/flash.py:89-100 | On success the trace is exactly CONFIG:=2, ERASEALL:=1, CONFIG:=0. A timeout gives the prefix that ends with the effect whose wait failed. At most 15 READY reads. |
| Nvmc.EraseCommand | vendor/nordic/flash.py:107-113 | The name 'flash1' selects ERASEPAGE and 'UICR' selects ERASEUICR. Every other name selects nothing. |
| Nvmc.Erase | vendor/nordic/flash.py:102-118 | On success the trace is CONFIG:=2, then the page's command with the page address, then CONFIG:=0. It fails on the name iff the name is unrecognised and the first wait succeeded; the trace is then just CONFIG:=2. A timeout gives the prefix of the matching sequence that ends with the effect whose wait failed. |
| Nvmc.Write | vendor/nordic/flash.py:120-130 | On success the trace is CONFIG:=1, then a transfer of `size >> 2` words at `mr.adr`, then CONFIG:=0. A timeout gives the prefix that ends with the effect whose wait failed. |
| NvmcProperties.ReadyHardwareCompletes | vendor/nordic/flash.py:60-67 | On a controller ready at every read, every effect is issued and each wait takes one read. |
| NvmcProperties.OperationsCompleteOnReadyHardware | vendor/nordic/flash.py:89-130 | erase_all, erase of a recognised page, and write each complete on a ready controller. Each issues its full three-effect trace after exactly 3 reads. |
| NvmcProperties.SuccessLeavesReadOnly | vendor/nordic/flash.py:89-130 | When erase_all, erase or write succeeds, the last CONFIG value written is REN (0). |
| NvmcProperties.FirstWaitTimeoutLeavesArmed | vendor/nordic/flash.py:89-124 | When the first wait times out, each operation stops after its enable write, and the controller is left erase enabled or write enabled. |
| NvmcProperties.ThreeStepRun | vendor/nordic/flash.py:89-130 | A three-effect operation is decided by its three waits. The first wait to time out ends it after the effect just before that wait. If none times out, it completes with the sum of their reads. |
| NvmcProperties.LastConfigOfPrefix | vendor/nordic/flash.py:89-130 | In an enable, act, read-only sequence, the first two effects leave CONFIG at the enable value and the full sequence leaves it at REN. |
| NvmcProperties.EraseAllTimeoutLeavesConfig | vendor/nordic/flash.py:89-100 | A timeout of erase_all at the first or second wait leaves CONFIG at EEN. A timeout at the last wait leaves it at REN. |
| NvmcProperties.EraseTimeoutLeavesConfig | vendor/nordic/flash.py:102-118 | A timeout of erase at the first or second wait leaves CONFIG at EEN. A timeout at the last wait leaves it at REN. |
| NvmcProperties.WriteTimeoutLeavesConfig | vendor/nordic/flash.py:120-130 | A timeout of write at the first or second wait leaves CONFIG at WEN. A timeout at the last wait leaves it at REN. |
| NvmcProperties.EraseAllSecondWaitTimeout | vendor/nordic/flash.py:89-98 | With READY = 1, 0, 0, 0, 0, 0, erase_all writes CONFIG:=2 and ERASEALL:=1, then times out after 6 reads. CONFIG:=0 is never written. |
| NvmcProperties.NeverReadyTimesOut | vendor/nordic/flash.py:60-67 | Five reads of 0 make the wait time out. |
| NvmcProperties.BadPageLeavesEraseEnabled | vendor/nordic/flash.py:102-113 | An unrecognised page name fails after CONFIG:=EEN, so the controller is left erase enabled. |
| NvmcProperties.EraseAllTimeoutPoint | vendor/nordic/flash.py:89-96 | erase_all stops right after its enable write iff the first wait times out. ERASEALL is written only after the enable wait succeeds. |
| NvmcProperties.ArmedPrefix | vendor/nordic/flash.py:89-130 | Any prefix of a trace that issues its commands in the right mode does so too. |
| NvmcProperties.OperationsArmBeforeActing | vendor/nordic/flash.py:89-130 | Whatever READY returns, every erase command is issued while CONFIG is EEN and every word transfer while CONFIG is WEN. |
| NvmcProperties.EraseArmed | vendor/nordic/flash.py:102-118 | Whatever READY returns and whatever the page name, erase issues its command only while CONFIG is EEN. |
| NvmcProperties.ProgressIndependentOfSteps | vendor/nordic/flash.py:60-67 | How far an effect sequence gets, and how many reads it takes, depends only on READY and the number of effects. |
| NvmcProperties.EraseDispatchByName | vendor/nordic/flash.py:107-111 | A flash1 page and a UICR page at the same address get as far on the same controller. Past the enable step, one gets ERASEPAGE and the other ERASEUICR. |
| NvmcProperties.FirmwarePagesUsePageErase | vendor/nordic/flash.py:85-109 | Pages of the firmware region are erased with ERASEPAGE. |
| NvmcProperties.WriteIgnoresValidator | vendor/nordic/flash.py:120-130 | write does not call check_region. On a ready controller, every span, whatever check_region says of it, completes and has `size >> 2` words transferred at its address. |
| NvmcProperties.MisalignedWriteStillTransfers | vendor/nordic/flash.py:73-130 | The span (2, 6), which check_region rejects as misaligned, is still transferred as one word at address 2. |
| NvmcProperties.ValidatedWriteCoversSpan | vendor/nordic/flash.py:120-126 | A completed write of an accepted span transfers words starting at the span's address, 4 × words equals the span's size, and the span lies in code-1 or UICR. |
| NvmcProperties.SectorListOrder | vendor/nordic/flash.py:52-71 | sector_list gives the flash1 pages followed by the UICR pages. |
| NvmcProperties.SectorPagesErasable | vendor/nordic/flash.py:102-113 | With the pages tagged by their region, no page of sector_list makes erase fail on its name. flash1 pages get ERASEPAGE and UICR pages get ERASEUICR. |
| NvmcProperties.TiledPagesAreWritable | vendor/nordic/flash.py:52-58 | Every whole page of a word-aligned 1 KiB tiling of code-1 or UICR passes check_region. |
| Stm32.GpioN | stm32.py:31-37 | gpio_n(n) is None iff n >= 6. Otherwise its name is the n-th of 'A'..'F', and its base is the block GpioPortAt maps back to port n. |
| Stm32.GpioPortAt | stm32.py:35-36 | Inverse of the base computation. It recognises only the bases of ports 0 to 5. |
| Stm32.GpioBaseRoundTrip | stm32.py:35-37 | Port n's base leads back to n, and every base GpioPortAt recognises is the base of the port it returns. |
| Stm32.GpioLayout | stm32.py:35-36 | Ports are in strictly increasing address order, 0x400 apart, with non-overlapping blocks and distinct names. |
| Stm32.GpioBounds | stm32.py:33-37 | Port 0 is ('A', 0x48000000), port 5 is ('F', 0x48001400), and every base lies between the two. |
| Stm32.DbInsert | stm32.py:181-182 | The entry under info's name becomes info, the other entries are unchanged, and no other key is added. Keying by name is preserved. |
| Stm32.Lookup | stm32.py:184-187 | Lookup succeeds iff the name is in the database. On a database keyed by name, the result carries the looked-up name. |
| Stm32.InsertThenLookup | stm32.py:181-186 | After db_insert(info), lookup of info's name returns info, and lookups of other names are unchanged. |
| Stm32.InsertAllStep | stm32.py:181-186 | After a series of inserts, the last insert decides the entry under its own name. Every other name keeps the entry the earlier inserts left. |
| Stm32.LookupAfterInserts | stm32.py:179-187 | After a series of inserts, lookup of a name succeeds iff some inserted description has that name. |
| Stm32.LookupReturnsLastInsert | stm32.py:179-187 | A successful lookup after a series of inserts returns the last description inserted under that name. |
| Stm32.InitialDbContents | stm32.py:170-189 | After module initialisation, lookup('STM32F303xC') returns STM32F303xC_info, and every other name fails. |

## Left out

- `time.sleep(0.1)` between READY reads: only the number of reads is modelled, not time.
- Register access (`self.hw.*.rd/wr`) and `device.cpu.wrmem32` are hardware and transport calls. They are recorded as trace events. The data in the `io` buffer is not modelled.
- READY reads past the end of the injected observations read 0 (not ready). This models a controller that stops answering ready.
- Bit 0 of READY (`v & 1`) is `v % 2 == 1`, and `x & 3` is `x % 4`. Both are exact for the non-negative values involved.
- `mem.flash_pages` and `mem.region` are not part of this model. The page lists are given sequences. `Pages.Tiles` states the layout they are assumed to have. `Regions.Contains` assumes `contains` means `base <= adr && adr + size <= base + size`.
- Nvmc.Erase picks the erase command before issuing CONFIG:=EEN. The choice is pure, so the trace, outcome and read count are the same as choosing after the enable wait.
- `__str__` and `util.display_cols`: presentation only.
- stm32.py vector tables, `gpio_regs` and the vector-table field of `STM32F303xC_info`: static configuration.
- stm32.py `soc.__init__`, `cmd_exceptions` and `cmd_gpio`: command-line rendering that depends on code outside this model.
- Stm32.GpioN: takes a natural number. A negative `n` would hit Python's negative indexing, which is not modelled.
- Stm32.Lookup: a missing name is modelled only as failure (None). The source's error message refers to an undefined variable.
- target/frdm_k64f.py: board bring-up and menu wiring only.
- Python `assert` statements vanish under `python -O`. That mode, in which neither timeouts nor bad page names would stop the driver, is not modelled.
