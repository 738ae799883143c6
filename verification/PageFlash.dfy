/** Page-ahead erasing in abup_flash.c: a sequential download is written page by page,
    and each write erases the page after the one it starts in. */
module PageFlash {
  import opened NorFlash

  const PAGE := 4096
  const SEARCHED_PAGES := 16

  /** The static page number, 0 before the first write, and the flash. */
  datatype State = State(lastPage: nat, flash: Flash)

  /** The page counter that the search loop of abup_write_flash stops at. It never gets past SEARCHED_PAGES + 1. */
  function CurrentPage(offset: nat): (p: nat)
  {
    if offset <= PAGE then 1
    else if offset > SEARCHED_PAGES * PAGE then SEARCHED_PAGES + 1
    else (offset + PAGE - 1) / PAGE
  }

  /** The search loop. */
  method FindPage(offset: nat) returns (p: nat)
    ensures p == CurrentPage(offset)
  {
    p := 1;
    while p <= SEARCHED_PAGES && offset > p * PAGE
      invariant 1 <= p <= SEARCHED_PAGES + 1
      invariant p > 1 ==> offset > (p - 1) * PAGE
    {
      p := p + 1;
    }
  }

  /** abup_write_flash on the region at `base`. */
  function WritePage(s: State, base: int, data: seq<cell>, offset: nat): (s': State)
  {
    if |data| > PAGE then s
    else
      var p := CurrentPage(offset);
      var f := if s.lastPage == p then s.flash
               else
                 var f1 := if p == 1 then Erase(s.flash, base, PAGE) else s.flash;
                 Erase(f1, base + p * PAGE, PAGE);
      State(p, Write(f, base + offset, data))
  }

  class Region {
    const base: int
    var lastPage: nat
    var flash: Flash

    ghost function View(): (s: State)
      reads this
    {
      State(lastPage, flash)
    }

    constructor (b: int, f: Flash)
      ensures base == b && View() == State(0, f)
    {
      base, lastPage, flash := b, 0, f;
    }

    method WriteFlash(data: seq<cell>, offset: nat)
      modifies this
      ensures View() == WritePage(old(View()), base, data, offset)
    {
      if |data| > PAGE {
        return;
      }
      var page := FindPage(offset);
      if lastPage != page {
        if page == 1 {
          flash := Erase(flash, base, PAGE);
        }
        flash := Erase(flash, base + page * PAGE, PAGE);
        lastPage := page;
      }
      flash := Write(flash, base + offset, data);
    }
  }

  // ----- sequential downloads

  function Concat(chunks: seq<seq<cell>>): (data: seq<cell>)
  {
    if chunks == [] then [] else Concat(chunks[..|chunks| - 1]) + chunks[|chunks| - 1]
  }

  predicate Pageable(chunks: seq<seq<cell>>)
  {
    forall i :: 0 <= i < |chunks| ==> |chunks[i]| <= PAGE
  }

  /** A fresh download: contiguous writes from offset 0. */
  function Download(base: int, f0: Flash, chunks: seq<seq<cell>>): (s: State)
  {
    if chunks == [] then State(0, f0)
    else
      var before := chunks[..|chunks| - 1];
      WritePage(Download(base, f0, before), base, chunks[|chunks| - 1], |Concat(before)|)
  }

  /** How far the region has been erased. */
  function ErasedUpTo(lastPage: nat): (n: nat)
  {
    if lastPage == 0 then 0 else (lastPage + 1) * PAGE
  }

  /** The cell at offset i: erased before it was written, or written over what was there, or not written. */
  function Cell(old': cell, data: seq<cell>, erased: nat, i: int): (b: cell)
  {
    if 0 <= i < |data| then if i < erased then data[i] else old' & data[i]
    else if 0 <= i < erased then 0xFF
    else old'
  }

  ghost predicate Stored(s: State, base: int, f0: Flash, data: seq<cell>)
  {
    forall x :: s.flash(x) == Cell(f0(x), data, ErasedUpTo(s.lastPage), x - base)
  }

  /** How the last page found relates to the bytes written so far. */
  predicate InStep(lastPage: nat, length: nat)
  {
    if lastPage == 0 then length == 0
    else if lastPage <= SEARCHED_PAGES then
      (lastPage == 1 || (lastPage - 1) * PAGE < length) && length <= (lastPage + 1) * PAGE
    else lastPage == SEARCHED_PAGES + 1 && length > SEARCHED_PAGES * PAGE
  }

  /** A new page is always the next one, and holds no data yet. */
  lemma PagesAdvance(lastPage: nat, length: nat, size: nat)
    requires InStep(lastPage, length) && size <= PAGE
    ensures var p := CurrentPage(length);
            && (p == lastPage || p == lastPage + 1)
            && InStep(p, length + size)
            && (p != lastPage ==> length <= ErasedUpTo(lastPage) && ErasedUpTo(p) == (p + 1) * PAGE)
            && (p <= SEARCHED_PAGES ==> length + size <= ErasedUpTo(p))
  {}

  lemma EraseStores(s: State, base: int, f0: Flash, data: seq<cell>, p: nat)
    requires Stored(s, base, f0, data) && |data| <= ErasedUpTo(s.lastPage) && p == s.lastPage + 1
    ensures var f1 := if p == 1 then Erase(s.flash, base, PAGE) else s.flash;
            Stored(State(p, Erase(f1, base + p * PAGE, PAGE)), base, f0, data)
  {}

  lemma WriteStores(s: State, base: int, f0: Flash, data: seq<cell>, chunk: seq<cell>)
    requires Stored(s, base, f0, data)
    ensures Stored(State(s.lastPage, Write(s.flash, base + |data|, chunk)), base, f0, data + chunk)
  {
    var f := Write(s.flash, base + |data|, chunk);
    forall x
      ensures f(x) == Cell(f0(x), data + chunk, ErasedUpTo(s.lastPage), x - base)
    {
      if base + |data| <= x < base + |data| + |chunk| {
        MaskIsIdentity(chunk[x - base - |data|]);
      }
    }
  }

  /** What a sequential download leaves, for every cutting and every initial flash: bytes below the erased extent are
      stored exactly, bytes beyond it only clear bits of what was there, and nothing else changes. */
  lemma {:induction false} DownloadStores(base: int, f0: Flash, chunks: seq<seq<cell>>)
    requires Pageable(chunks)
    ensures var s := Download(base, f0, chunks);
            && Stored(s, base, f0, Concat(chunks))
            && InStep(s.lastPage, |Concat(chunks)|)
  {
    if chunks != [] {
      var before, chunk := chunks[..|chunks| - 1], chunks[|chunks| - 1];
      DownloadStores(base, f0, before);
      hide Stored, CurrentPage, InStep;
      PageStores(Download(base, f0, before), base, f0, Concat(before), chunk);
    }
  }

  /** One write of a download. */
  lemma PageStores(s: State, base: int, f0: Flash, data: seq<cell>, chunk: seq<cell>)
    requires Stored(s, base, f0, data) && InStep(s.lastPage, |data|) && |chunk| <= PAGE
    ensures var s' := WritePage(s, base, chunk, |data|);
            Stored(s', base, f0, data + chunk) && InStep(s'.lastPage, |data + chunk|)
  {
    PagesAdvance(s.lastPage, |data|, |chunk|);
    var p := CurrentPage(|data|);
    hide Stored, CurrentPage, InStep, Erase, Write;
    if p != s.lastPage {
      EraseStores(s, base, f0, data, p);
      var f1 := if p == 1 then Erase(s.flash, base, PAGE) else s.flash;
      WriteStores(State(p, Erase(f1, base + p * PAGE, PAGE)), base, f0, data, chunk);
    } else {
      WriteStores(s, base, f0, data, chunk);
    }
  }

  const ERASABLE := (SEARCHED_PAGES + 2) * PAGE

  /** Everything written lies below the erased extent, or that extent is the largest there is. */
  lemma ErasedExtent(base: int, f0: Flash, chunks: seq<seq<cell>>)
    requires Pageable(chunks)
    ensures var e := ErasedUpTo(Download(base, f0, chunks).lastPage);
            |Concat(chunks)| <= e < ERASABLE || e == ERASABLE
  {
    DownloadStores(base, f0, chunks);
  }

  /** Nothing but zeros past the 18th page. */
  predicate ZeroTail(data: seq<cell>)
  {
    forall i :: ERASABLE <= i < |data| ==> data[i] == 0
  }

  predicate ReadsBackFrom(base: int, f0: Flash, chunks: seq<seq<cell>>)
  {
    Read(Download(base, f0, chunks).flash, base, |Concat(chunks)|) == Concat(chunks)
  }

  /** A download reads back as it was sent, whatever the flash held before, exactly when every byte past the
      18th page is zero: the page search stops at 17, so the pages beyond are written without being erased. */
  lemma ReadsBackIff(base: int, chunks: seq<seq<cell>>)
    requires Pageable(chunks)
    ensures (forall f0: Flash :: ReadsBackFrom(base, f0, chunks))
            <==> ZeroTail(Concat(chunks))
  {
    hide ReadsBackFrom, ZeroTail, Concat;
    if ZeroTail(Concat(chunks)) {
      forall f0: Flash
        ensures ReadsBackFrom(base, f0, chunks)
      {
        ReadsBack(base, f0, chunks);
      }
    }
    var zero: Flash := x => 0;
    if ReadsBackFrom(base, zero, chunks) {
      OverZeros(base, zero, chunks);
    }
  }

  lemma OverZeros(base: int, zero: Flash, chunks: seq<seq<cell>>)
    requires Pageable(chunks) && (forall x :: zero(x) == 0) && ReadsBackFrom(base, zero, chunks)
    ensures ZeroTail(Concat(chunks))
  {
    var data := Concat(chunks);
    ErasedExtent(base, zero, chunks);
    DownloadStores(base, zero, chunks);
    var s := Download(base, zero, chunks);
    forall i | ERASABLE <= i < |data|
      ensures data[i] == 0
    {
      assert Read(s.flash, base, |data|)[i] == s.flash(base + i);
      ZeroStays(data[i]);
    }
  }

  lemma ZeroStays(b: cell)
    ensures 0 & b == 0 && b & 0 == 0
  {}

  lemma ReadsBack(base: int, f0: Flash, chunks: seq<seq<cell>>)
    requires Pageable(chunks)
    requires ZeroTail(Concat(chunks))
    ensures ReadsBackFrom(base, f0, chunks)
  {
    ErasedExtent(base, f0, chunks);
    DownloadStores(base, f0, chunks);
    var data, s := Concat(chunks), Download(base, f0, chunks);
    hide Concat, Download, InStep, Pageable, ErasedUpTo;
    forall i | 0 <= i < |data|
      ensures s.flash(base + i) == data[i]
    {
      assert s.flash(base + i) == Cell(f0(base + i), data, ErasedUpTo(s.lastPage), i);
      if i >= ERASABLE {
        ZeroStays(f0(base + i));
      }
    }
    assert Read(s.flash, base, |data|) == data;
  }

  /** Where the last write started. */
  function LastOffset(chunks: seq<seq<cell>>): (n: nat)
    requires chunks != []
  {
    |Concat(chunks[..|chunks| - 1])|
  }

  ghost predicate NextPageSurvives(base: int, f0: Flash, chunks: seq<seq<cell>>, n: nat)
  {
    forall x :: base + n * PAGE <= x < base + (n + 1) * PAGE ==> Download(base, f0, chunks).flash(x) == f0(x)
  }

  /** The guard that fails: no write starts inside the last of n pages, or the search never gets that far. */
  predicate LeavesLastPage(chunks: seq<seq<cell>>, n: nat)
    requires chunks != []
  {
    n >= SEARCHED_PAGES + 2 || (n >= 2 && LastOffset(chunks) <= (n - 1) * PAGE)
  }

  /** The page behind a region of n pages, which abup_write_backup uses, survives the download
      exactly when the region has more pages than the search, or more than one and no write starts inside the last. */
  lemma NextPageSurvivesIff(base: int, chunks: seq<seq<cell>>, n: nat)
    requires Pageable(chunks) && chunks != [] && n >= 1 && |Concat(chunks)| <= n * PAGE
    ensures (forall f0: Flash :: NextPageSurvives(base, f0, chunks, n)) <==> LeavesLastPage(chunks, n)
  {
    hide NextPageSurvives;
    if LeavesLastPage(chunks, n) {
      forall f0: Flash
        ensures NextPageSurvives(base, f0, chunks, n)
      {
        NextPage(base, f0, chunks, n);
      }
    }
    var zero: Flash := x => 0;
    NextPage(base, zero, chunks, n);
  }

  /** That page is either left alone or erased. */
  lemma NextPage(base: int, f0: Flash, chunks: seq<seq<cell>>, n: nat)
    requires Pageable(chunks) && chunks != [] && n >= 1 && |Concat(chunks)| <= n * PAGE
    ensures LeavesLastPage(chunks, n) ==> NextPageSurvives(base, f0, chunks, n)
    ensures !LeavesLastPage(chunks, n) && f0(base + n * PAGE) == 0 ==> !NextPageSurvives(base, f0, chunks, n)
  {
    DownloadStores(base, f0, chunks);
    var s, data, offset := Download(base, f0, chunks), Concat(chunks), LastOffset(chunks);
    assert s.lastPage == CurrentPage(offset) && offset <= |data|;
    hide Download, Concat, LastOffset, InStep, Pageable;
    PageOfOffset(offset, n);
    if LeavesLastPage(chunks, n) {
      forall x | base + n * PAGE <= x < base + (n + 1) * PAGE
        ensures s.flash(x) == f0(x)
      {
        hide CurrentPage, ErasedUpTo;
        assert s.flash(x) == Cell(f0(x), data, ErasedUpTo(s.lastPage), x - base);
      }
    } else {
      var x := base + n * PAGE;
      assert s.flash(x) == Cell(f0(x), data, ErasedUpTo(s.lastPage), x - base) == 0xFF;
    }
  }

  lemma PageOfOffset(offset: nat, n: nat)
    requires 1 <= n && offset <= n * PAGE
    ensures var e := ErasedUpTo(CurrentPage(offset));
            if n >= SEARCHED_PAGES + 2 || (n >= 2 && offset <= (n - 1) * PAGE) then e <= n * PAGE else e == (n + 1) * PAGE
  {}
}
