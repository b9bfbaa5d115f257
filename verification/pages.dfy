/**
 Flash pages: the erasable units of a flash region, each tagged with the
 name of the region it belongs to. The page lists of the driver are built
 by `mem.flash_pages`, which is not part of this model; `Tiles` states the
 layout such a list is assumed to have.
 */
module Pages {
  import opened Regions

  /** A page named after its region, starting at `adr`, `size` bytes long. */
  datatype Page = Page(name: string, adr: nat, size: nat)

  /** The Nordic page size, `1 << 10` bytes. */
  const PageSize: nat := 1024

  /** Name of the code-1 flash region and of its pages. */
  const Flash1Name: string := "flash1"

  /** Name of the user information configuration region and of its pages. */
  const UicrName: string := "UICR"

  /** Every page of the list carries the region name `name`. */
  ghost predicate TaggedAs(pages: seq<Page>, name: string)
  {
    forall i :: 0 <= i < |pages| ==> pages[i].name == name
  }

  /** pages slices region r into consecutive pageSize-byte pages named `name`,
      in ascending address order, covering the region exactly. */
  ghost predicate Tiles(pages: seq<Page>, name: string, r: Region, pageSize: nat)
  {
    && pageSize > 0
    && |pages| * pageSize == r.size
    && forall i :: 0 <= i < |pages| ==> pages[i] == Page(name, r.base + i * pageSize, pageSize)
  }

  /** Sum of the page sizes of a list. */
  function TotalSize(pages: seq<Page>): nat
  {
    if |pages| == 0 then 0 else pages[0].size + TotalSize(pages[1..])
  }

  /** The span a page occupies. */
  function PageSpan(p: Page): Span
  {
    Span(p.adr, p.size)
  }

  lemma {:induction false} TotalSizeOfUniformPages(pages: seq<Page>, pageSize: nat)
    requires forall i :: 0 <= i < |pages| ==> pages[i].size == pageSize
    ensures TotalSize(pages) == |pages| * pageSize
  {
    if |pages| > 0 {
      TotalSizeOfUniformPages(pages[1..], pageSize);
    }
  }

  /** The pages of a tiling add up to the region's size. This is a property
      of the assumed page layout (the page count times the page size is
      the region size), restated as a sum of page sizes, not of the driver. */
  lemma TilingCoversRegion(pages: seq<Page>, name: string, r: Region, pageSize: nat)
    requires Tiles(pages, name, r, pageSize)
    ensures TotalSize(pages) == r.size
  {
    TotalSizeOfUniformPages(pages, pageSize);
  }

  /** The pages of a tiling are tagged with the region name, lie inside the
      region, are contiguous and ascending, and do not overlap. */
  lemma TilingLayout(pages: seq<Page>, name: string, r: Region, pageSize: nat)
    requires Tiles(pages, name, r, pageSize)
    ensures TaggedAs(pages, name)
    ensures forall i :: 0 <= i < |pages| ==> Contains(r, PageSpan(pages[i]))
    ensures forall i :: 0 <= i < |pages| - 1 ==> pages[i].adr + pages[i].size == pages[i + 1].adr
    ensures forall i, j :: 0 <= i < j < |pages| ==> pages[i].adr + pages[i].size <= pages[j].adr
  {
    forall i | 0 <= i < |pages|
      ensures Contains(r, PageSpan(pages[i]))
    {
      PageEndWithin(i, |pages|, pageSize);
    }
    forall i, j | 0 <= i < j < |pages|
      ensures pages[i].adr + pages[i].size <= pages[j].adr
    {
      PageEndWithin(i, j, pageSize);
    }
  }

  /** Page i ends no later than page j starts, when i < j. */
  lemma {:induction false} PageEndWithin(i: nat, j: nat, pageSize: nat)
    requires i < j
    ensures i * pageSize + pageSize <= j * pageSize
    decreases j
  {
    if j > i + 1 {
      PageEndWithin(i, j - 1, pageSize);
    }
    NextPageStart(j - 1, pageSize);
  }

  lemma NextPageStart(i: nat, pageSize: nat)
    ensures (i + 1) * pageSize == i * pageSize + pageSize
  {
  }


}
