/**
 The write-span validator of the Nordic flash driver (`check_region`).

 A region is the contiguous range [base, base + size). The driver builds
 one for the code-1 flash area and one for the UICR area and accepts a
 write span only when it is word aligned, a whole number of words long,
 and contained in one of the two.
 */
module Regions {
  import opened Wrappers

  /** A named memory area of the device (`mem.region`). */
  datatype Region = Region(base: nat, size: nat)

  /** A caller-supplied memory span `x` with `x.adr` and `x.size`. */
  datatype Span = Span(adr: nat, size: nat)

  /** Containment as `mem.region.contains` is assumed to decide it. */
  predicate Contains(r: Region, x: Span)
  {
    r.base <= x.adr && x.adr + x.size <= r.base + r.size
  }

  /** Why a span is not a legal flash write target. */
  datatype Reason = NotAligned | NotWordMultiple | NotWithinFlash

  /** The message the driver returns for each reason. */
  function Message(reason: Reason): string
  {
    match reason
    case NotAligned => "memory region is not 32-bit aligned"
    case NotWordMultiple => "memory region is not a multiple of 32-bits"
    case NotWithinFlash => "memory region is not within flash"
  }

  /** `v & 3 != 0` for a non-negative value. */
  predicate LowBitsSet(v: nat)
  {
    v % 4 != 0
  }

  /** `check_region`: None when x meets the flash write requirements,
      otherwise the first rule it breaks, tested in the order alignment,
      size, containment. */
  function CheckRegion(code1: Region, uicr: Region, x: Span): (r: Option<Reason>)
    ensures LowBitsSet(x.adr) ==> r == Some(NotAligned)
    ensures !LowBitsSet(x.adr) && LowBitsSet(x.size) ==> r == Some(NotWordMultiple)
    ensures !LowBitsSet(x.adr) && !LowBitsSet(x.size) ==>
              (r == None <==> Contains(code1, x) || Contains(uicr, x))
    ensures r != None && !LowBitsSet(x.adr) && !LowBitsSet(x.size) ==> r == Some(NotWithinFlash)
  {
    if LowBitsSet(x.adr) then Some(NotAligned)
    else if LowBitsSet(x.size) then Some(NotWordMultiple)
    else if Contains(code1, x) then None
    else if Contains(uicr, x) then None
    else Some(NotWithinFlash)
  }

  /** Byte address a lies in region r. */
  predicate HoldsByte(r: Region, a: int)
  {
    r.base <= a < r.base + r.size
  }

  /** Every byte of the span x lies in region r. */
  ghost predicate CoversBytes(r: Region, x: Span)
  {
    forall a :: x.adr <= a < x.adr + x.size ==> HoldsByte(r, a)
  }

  /** For a non-empty span, containment is the same as every byte lying in the region. */
  lemma ContainsIffCoversBytes(r: Region, x: Span)
    requires x.size > 0
    ensures Contains(r, x) <==> CoversBytes(r, x)
  {
    if CoversBytes(r, x) {
      assert HoldsByte(r, x.adr);
      assert HoldsByte(r, x.adr + x.size - 1);
    }
  }

  /** A non-empty span is accepted exactly when its address and size are
      word multiples and all of its bytes lie in code-1 or all lie in UICR. */
  lemma AcceptedIffAlignedAndInsideOneRegion(code1: Region, uicr: Region, x: Span)
    requires x.size > 0
    ensures CheckRegion(code1, uicr, x) == None <==>
              && x.adr % 4 == 0 && x.size % 4 == 0
              && (CoversBytes(code1, x) || CoversBytes(uicr, x))
  {
    ContainsIffCoversBytes(code1, x);
    ContainsIffCoversBytes(uicr, x);
  }

  /** A span that has one byte in code-1 and one byte in UICR, with the two
      regions disjoint, is never accepted: it straddles them. */
  lemma StraddlingSpanRejected(code1: Region, uicr: Region, x: Span, a: int, b: int)
    requires code1.base + code1.size <= uicr.base || uicr.base + uicr.size <= code1.base
    requires x.adr <= a < x.adr + x.size && HoldsByte(code1, a)
    requires x.adr <= b < x.adr + x.size && HoldsByte(uicr, b)
    ensures CheckRegion(code1, uicr, x) != None
    ensures x.adr % 4 == 0 && x.size % 4 == 0 ==> CheckRegion(code1, uicr, x) == Some(NotWithinFlash)
  {
  }

  /** An accepted span is a whole number of 32-bit words: shifting its size
      right by two and back loses nothing. */
  lemma AcceptedSpanIsWholeWords(code1: Region, uicr: Region, x: Span)
    requires CheckRegion(code1, uicr, x) == None
    ensures (x.size / 4) * 4 == x.size
    ensures x.adr % 4 == 0
  {
  }
}
