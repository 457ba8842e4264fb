/**
 * `PDFTranslator.translate_pdf`: parse the PDF into a book, send every text and table
 * block to the language model in reading order, record each answer on its block, and
 * hand the book to the writer. The model's `make_request` is the parameter `request`;
 * a raised exception stops the whole run.
 */
module PdfTranslator {
  import opened Wrappers
  import opened Exceptions
  import opened ContentModel
  import opened PageModel
  import opened BookModel
  import opened ModelPrompts
  import opened Writer
  import PdfParser

  predicate BlocksConsistent(bs: seq<Block>) {
    forall k :: 0 <= k < |bs| ==> Consistent(bs[k])
  }

  predicate PagesConsistent(pages: seq<PageValue>) {
    forall i :: 0 <= i < |pages| ==> BlocksConsistent(pages[i].blocks)
  }

  /** Every block carries the attributes the parser assigns and the PDF writer reads. */
  predicate PagesAssigned(pages: seq<PageValue>) {
    forall i, k :: 0 <= i < |pages| && 0 <= k < |pages[i].blocks| ==> Assigned(pages[i].blocks[k])
  }

  // ---------------------------------------------------------------- one block

  /**
   * The loop body for one block: an image is skipped; any other block gets its prompt,
   * the model's answer is passed as is to `set_translation`, and an exception from
   * either stops the run with that exception.
   */
  function TranslateBlock(b: Block, lang: string, request: string -> Reply): (r: Result<Block, Error>)
    requires Consistent(b)
    ensures b.kind == Image ==> r == Ok(b)
    ensures r.Ok? ==> SameLayout(b, r.value) && Consistent(r.value)
  {
    match TranslatePrompt(b, lang)
    case None => Ok(b)
    case Some(prompt) =>
      match request(prompt)
      case Raised(e) => Err(e)
      case Answer(t, st) => SetTranslationSpec(b, t, st)
  }

  /** A text block answered with a string takes that string and that flag, and nothing else changes. */
  lemma TextAnswerRecorded(b: Block, lang: string, request: string -> Reply, t: string, st: bool)
    requires Consistent(b) && b.kind == Text
    requires request(TextPrompt(b.original.s, lang)) == Answer(Str(t), st)
    ensures TranslateBlock(b, lang, request) == Ok(b.(translation := Str(t), status := st))
  {
  }

  /**
   * A block other than an image fails exactly when the model raises, with the model's
   * own exception, or when a text block is answered with something other than a string.
   */
  lemma BlockFailures(b: Block, lang: string, request: string -> Reply)
    requires Consistent(b) && b.kind != Image
    ensures var reply := request(TranslatePrompt(b, lang).value);
      TranslateBlock(b, lang, request).Err? <==> reply.Raised? || (b.kind == Text && !reply.translation.Str?)
    ensures var reply := request(TranslatePrompt(b, lang).value);
      reply.Raised? ==> TranslateBlock(b, lang, request) == Err(reply.error)
  {
  }

  // ---------------------------------------------------------------- a run over many blocks

  /** Where a run stands: the items as they are now, and the exception that stopped it, if any. */
  datatype Run<T> = Run(items: seq<T>, failure: Option<Error>)

  /** `b` is `a` with at most its translation and flag changed, and an image not changed at all. */
  predicate Kept(a: Block, b: Block) {
    SameLayout(a, b) && (a.kind == Image ==> b == a)
  }

  predicate BlocksKept(a: seq<Block>, b: seq<Block>) {
    |a| == |b| && forall k :: 0 <= k < |a| ==> Kept(a[k], b[k])
  }

  /** The same pages with the same margins and the same blocks, up to translations and flags. */
  predicate PagesKept(a: seq<PageValue>, b: seq<PageValue>) {
    |a| == |b| && forall i :: 0 <= i < |a| ==> a[i].margins == b[i].margins && BlocksKept(a[i].blocks, b[i].blocks)
  }

  /** What `TranslateBlock` makes of each block of a page, computed independently of each other. */
  function Outcomes(bs: seq<Block>, lang: string, request: string -> Reply): (os: seq<Result<Block, Error>>)
    requires BlocksConsistent(bs)
    ensures |os| == |bs| && forall k :: 0 <= k < |bs| ==> os[k] == TranslateBlock(bs[k], lang, request)
  {
    seq(|bs|, k requires 0 <= k < |bs| => TranslateBlock(bs[k], lang, request))
  }

  /** `os[k]` is what handling block `k` on its own gives. */
  predicate OutcomeOf(bs: seq<Block>, os: seq<Result<Block, Error>>, k: int, lang: string, request: string -> Reply) {
    0 <= k < |bs| == |os| && Consistent(bs[k]) && os[k] == TranslateBlock(bs[k], lang, request)
  }

  lemma OutcomesOf(bs: seq<Block>, lang: string, request: string -> Reply)
    requires BlocksConsistent(bs)
    ensures forall k :: 0 <= k < |bs| ==> OutcomeOf(bs, Outcomes(bs, lang, request), k, lang, request)
  {
  }

  /** Each successful outcome keeps its block's layout and consistency. */
  predicate Steps(bs: seq<Block>, os: seq<Result<Block, Error>>) {
    |os| == |bs| && forall k :: 0 <= k < |bs| && os[k].Ok? ==> Kept(bs[k], os[k].value) && Consistent(os[k].value)
  }

  lemma OutcomesStep(bs: seq<Block>, lang: string, request: string -> Reply)
    requires BlocksConsistent(bs)
    ensures Steps(bs, Outcomes(bs, lang, request))
  {
  }

  /**
   * The page's blocks after the inner loop has handled the first `n` of them, where
   * handling block `k` gives `os[k]`; the loop stops at the first exception, which
   * leaves that block and every later one as they were.
   */
  function BlocksRun(bs: seq<Block>, os: seq<Result<Block, Error>>, n: nat): (r: Run<Block>)
    requires n <= |bs| && |os| == |bs|
    ensures |r.items| == |bs| && forall k :: n <= k < |bs| ==> r.items[k] == bs[k]
  {
    if n == 0 then Run(bs, None)
    else
      var prev := BlocksRun(bs, os, n - 1);
      if prev.failure.Some? then prev
      else
        match os[n - 1]
        case Err(e) => Run(prev.items, Some(e))
        case Ok(b) => Run(prev.items[n - 1 := b], None)
  }

  /** The run changes no block's layout, touches no image, and keeps every block consistent. */
  lemma {:induction false} BlocksRunKeeps(bs: seq<Block>, os: seq<Result<Block, Error>>, n: nat)
    requires n <= |bs| && Steps(bs, os) && BlocksConsistent(bs)
    ensures BlocksKept(bs, BlocksRun(bs, os, n).items) && BlocksConsistent(BlocksRun(bs, os, n).items)
  {
    if n > 0 {
      BlocksRunKeeps(bs, os, n - 1);
    }
  }

  /** Once the run has stopped, handling more blocks changes nothing. */
  lemma {:induction false} BlocksRunStops(bs: seq<Block>, os: seq<Result<Block, Error>>, n: nat, m: nat)
    requires n <= m <= |bs| && |os| == |bs|
    requires BlocksRun(bs, os, n).failure.Some?
    ensures BlocksRun(bs, os, m) == BlocksRun(bs, os, n)
    decreases m
  {
    if m > n {
      BlocksRunStops(bs, os, n, m - 1);
    }
  }

  /** One more block: the run takes its outcome, or stops with its exception. */
  lemma BlocksRunStep(bs: seq<Block>, os: seq<Result<Block, Error>>, k: nat)
    requires k < |bs| && |os| == |bs|
    requires BlocksRun(bs, os, k).failure.None?
    ensures os[k].Err? ==> BlocksRun(bs, os, k + 1) == Run(BlocksRun(bs, os, k).items, Some(os[k].error))
    ensures os[k].Ok? ==> BlocksRun(bs, os, k + 1) == Run(BlocksRun(bs, os, k).items[k := os[k].value], None)
  {
  }

  /**
   * A run that did not stop has handled each block on its own: block `k` is exactly
   * its outcome, and every handled outcome succeeded.
   */
  lemma {:induction false} BlocksRunSucceeds(bs: seq<Block>, os: seq<Result<Block, Error>>, n: nat)
    requires n <= |bs| && |os| == |bs|
    ensures BlocksRun(bs, os, n).failure.None? <==> forall k :: 0 <= k < n ==> os[k].Ok?
    ensures BlocksRun(bs, os, n).failure.None? ==> forall k :: 0 <= k < n ==> BlocksRun(bs, os, n).items[k] == os[k].value
  {
    if n > 0 {
      BlocksRunSucceeds(bs, os, n - 1);
      var prev := BlocksRun(bs, os, n - 1);
      if prev.failure.Some? {
        var k :| 0 <= k < n - 1 && os[k].Err?;
      }
    }
  }

  /** A run that stopped did so with the exception of the first failed outcome. */
  lemma {:induction false} BlocksRunFailure(bs: seq<Block>, os: seq<Result<Block, Error>>, n: nat)
    requires n <= |bs| && |os| == |bs|
    requires BlocksRun(bs, os, n).failure.Some?
    ensures exists k :: 0 <= k < n && os[k] == Err(BlocksRun(bs, os, n).failure.value) &&
                        forall j :: 0 <= j < k ==> os[j].Ok?
  {
    var prev := BlocksRun(bs, os, n - 1);
    if prev.failure.Some? {
      BlocksRunFailure(bs, os, n - 1);
    } else {
      BlocksRunSucceeds(bs, os, n - 1);
    }
  }

  /** The inner loop run to the end of a page: its blocks and the exception that stopped it. */
  function PageRun(bs: seq<Block>, lang: string, request: string -> Reply): (r: Run<Block>)
    requires BlocksConsistent(bs)
    ensures |r.items| == |bs|
  {
    BlocksRun(bs, Outcomes(bs, lang, request), |bs|)
  }

  /** The page run keeps every block's layout, touches no image and keeps every block consistent. */
  lemma PageRunKeeps(bs: seq<Block>, lang: string, request: string -> Reply)
    requires BlocksConsistent(bs)
    ensures BlocksKept(bs, PageRun(bs, lang, request).items) && BlocksConsistent(PageRun(bs, lang, request).items)
  {
    OutcomesStep(bs, lang, request);
    BlocksRunKeeps(bs, Outcomes(bs, lang, request), |bs|);
  }

  /** What the inner loop makes of each page, computed independently of each other. */
  function PageRuns(pages: seq<PageValue>, lang: string, request: string -> Reply): (rs: seq<Run<Block>>)
    requires PagesConsistent(pages)
    ensures |rs| == |pages| && forall i :: 0 <= i < |pages| ==> rs[i] == PageRun(pages[i].blocks, lang, request)
  {
    seq(|pages|, i requires 0 <= i < |pages| => PageRun(pages[i].blocks, lang, request))
  }

  /** `rs[i]` is what the inner loop makes of page `i`. */
  predicate RunOf(pages: seq<PageValue>, rs: seq<Run<Block>>, i: int, lang: string, request: string -> Reply) {
    0 <= i < |pages| == |rs| && BlocksConsistent(pages[i].blocks) && rs[i] == PageRun(pages[i].blocks, lang, request)
  }

  lemma PageRunsOf(pages: seq<PageValue>, lang: string, request: string -> Reply)
    requires PagesConsistent(pages)
    ensures forall i :: 0 <= i < |pages| ==> RunOf(pages, PageRuns(pages, lang, request), i, lang, request)
  {
  }

  predicate PageSteps(pages: seq<PageValue>, rs: seq<Run<Block>>) {
    |rs| == |pages| && forall i :: 0 <= i < |pages| ==> BlocksKept(pages[i].blocks, rs[i].items) && BlocksConsistent(rs[i].items)
  }

  lemma PageRunsStep(pages: seq<PageValue>, lang: string, request: string -> Reply)
    requires PagesConsistent(pages)
    ensures PageSteps(pages, PageRuns(pages, lang, request))
  {
    forall i | 0 <= i < |pages| {
      PageRunKeeps(pages[i].blocks, lang, request);
    }
  }

  /**
   * The book's pages after the outer loop has handled the first `n` pages, page `i`
   * giving `rs[i]`; a page whose run stopped keeps the blocks translated so far, and
   * the book run stops with it.
   */
  function BookRun(pages: seq<PageValue>, rs: seq<Run<Block>>, n: nat): (r: Run<PageValue>)
    requires n <= |pages| && |rs| == |pages|
    ensures |r.items| == |pages| && forall i :: n <= i < |pages| ==> r.items[i] == pages[i]
  {
    if n == 0 then Run(pages, None)
    else
      var prev := BookRun(pages, rs, n - 1);
      if prev.failure.Some? then prev
      else Run(prev.items[n - 1 := PageValue(rs[n - 1].items, pages[n - 1].margins)], rs[n - 1].failure)
  }

  /** The run keeps every page's margins and layout, touches no image, and keeps every block consistent. */
  lemma {:induction false} BookRunKeeps(pages: seq<PageValue>, rs: seq<Run<Block>>, n: nat)
    requires n <= |pages| && PageSteps(pages, rs) && PagesConsistent(pages)
    ensures PagesKept(pages, BookRun(pages, rs, n).items) && PagesConsistent(BookRun(pages, rs, n).items)
  {
    if n > 0 {
      BookRunKeeps(pages, rs, n - 1);
    }
  }

  lemma {:induction false} BookRunStops(pages: seq<PageValue>, rs: seq<Run<Block>>, n: nat, m: nat)
    requires n <= m <= |pages| && |rs| == |pages|
    requires BookRun(pages, rs, n).failure.Some?
    ensures BookRun(pages, rs, m) == BookRun(pages, rs, n)
    decreases m
  {
    if m > n {
      BookRunStops(pages, rs, n, m - 1);
    }
  }

  /** One more page: the book takes that page's run, and stops if it stopped. */
  lemma BookRunStep(pages: seq<PageValue>, rs: seq<Run<Block>>, i: nat)
    requires i < |pages| && |rs| == |pages|
    requires BookRun(pages, rs, i).failure.None?
    ensures BookRun(pages, rs, i + 1)
         == Run(BookRun(pages, rs, i).items[i := PageValue(rs[i].items, pages[i].margins)], rs[i].failure)
  {
  }

  /**
   * A book run that did not stop has handled every page on its own: page `i` holds the
   * blocks of its own page run, and none of those runs stopped.
   */
  lemma {:induction false} BookRunSucceeds(pages: seq<PageValue>, rs: seq<Run<Block>>, n: nat)
    requires n <= |pages| && |rs| == |pages|
    ensures BookRun(pages, rs, n).failure.None? <==> forall i :: 0 <= i < n ==> rs[i].failure.None?
    ensures BookRun(pages, rs, n).failure.None? ==> forall i :: 0 <= i < n ==> BookRun(pages, rs, n).items[i].blocks == rs[i].items
  {
    if n > 0 {
      BookRunSucceeds(pages, rs, n - 1);
      var prev := BookRun(pages, rs, n - 1);
      if prev.failure.Some? {
        var i :| 0 <= i < n - 1 && rs[i].failure.Some?;
      }
    }
  }

  /** The whole translation loop over a book's pages. */
  function TranslationRun(pages: seq<PageValue>, lang: string, request: string -> Reply): (r: Run<PageValue>)
    requires PagesConsistent(pages)
    ensures PagesKept(pages, r.items) && PagesConsistent(r.items)
  {
    PageRunsStep(pages, lang, request);
    BookRunKeeps(pages, PageRuns(pages, lang, request), |pages|);
    BookRun(pages, PageRuns(pages, lang, request), |pages|)
  }

  // ---------------------------------------------------------------- the loops

  /** The loop body on one block object, which `set_translation` updates in place. */
  method TranslateContent(c: Content, lang: string, request: string -> Reply) returns (failure: Option<Error>)
    requires Consistent(c.View())
    modifies c
    ensures TranslateBlock(old(c.View()), lang, request).Ok? ==>
      failure.None? && c.View() == TranslateBlock(old(c.View()), lang, request).value
    ensures TranslateBlock(old(c.View()), lang, request).Err? ==>
      failure == Some(TranslateBlock(old(c.View()), lang, request).error) && c.View() == old(c.View())
  {
    if c.kind == Image {
      return None;
    }
    var prompt := TranslatePrompt(c.View(), lang).value;
    var reply := request(prompt);
    match reply
    case Raised(e) =>
      failure := Some(e);
    case Answer(t, st) =>
      var outcome := c.SetTranslation(t, st);
      failure := if outcome.Fail? then Some(outcome.error) else None;
  }

  /** No block object occurs twice in the page. */
  predicate Distinct(cs: seq<Content>) {
    forall i, j :: 0 <= i < |cs| && 0 <= j < |cs| && i != j ==> cs[i] != cs[j]
  }

  /** One pass of the inner loop: block `k` is handled, and the run moves on by one block. */
  method TranslateBlockAt(cs: seq<Content>, ghost bs: seq<Block>, ghost os: seq<Result<Block, Error>>, k: nat,
                          lang: string, request: string -> Reply) returns (failure: Option<Error>)
    requires k < |cs| == |bs| == |os| && Distinct(cs)
    requires forall j :: 0 <= j < |bs| ==> OutcomeOf(bs, os, j, lang, request)
    requires BlocksRun(bs, os, k).failure.None?
    requires forall j :: 0 <= j < |bs| ==> cs[j].View() == BlocksRun(bs, os, k).items[j]
    modifies cs[k]
    ensures failure == BlocksRun(bs, os, k + 1).failure
    ensures forall j :: 0 <= j < |bs| ==> cs[j].View() == BlocksRun(bs, os, k + 1).items[j]
  {
    assert OutcomeOf(bs, os, k, lang, request);
    BlocksRunStep(bs, os, k);
    failure := TranslateContent(cs[k], lang, request);
  }

  /** The inner loop over block objects whose handling gives `os`: they end as the run says. */
  method TranslateBlocks(cs: seq<Content>, ghost bs: seq<Block>, ghost os: seq<Result<Block, Error>>,
                         lang: string, request: string -> Reply) returns (failure: Option<Error>)
    requires |bs| == |cs| == |os| && forall k :: 0 <= k < |bs| ==> cs[k].View() == bs[k]
    requires Distinct(cs) && forall k :: 0 <= k < |bs| ==> OutcomeOf(bs, os, k, lang, request)
    modifies cs
    ensures failure == BlocksRun(bs, os, |bs|).failure
    ensures forall k :: 0 <= k < |bs| ==> cs[k].View() == BlocksRun(bs, os, |bs|).items[k]
  {
    failure := None;
    var k := 0;
    while k < |cs| && failure.None?
      invariant k <= |cs| && failure == BlocksRun(bs, os, k).failure
      invariant forall j :: 0 <= j < |bs| ==> cs[j].View() == BlocksRun(bs, os, k).items[j]
    {
      failure := TranslateBlockAt(cs, bs, os, k, lang, request);
      k := k + 1;
    }
    if failure.Some? {
      BlocksRunStops(bs, os, k, |bs|);
    }
  }

  /** The inner loop over one page's blocks: they end as the page run says, and so does the exception. */
  method TranslatePage(page: Page, ghost bs: seq<Block>, lang: string, request: string -> Reply)
    returns (failure: Option<Error>)
    requires page.Blocks() == bs && BlocksConsistent(bs) && Distinct(page.contents)
    modifies page.contents
    ensures failure == PageRun(bs, lang, request).failure && page.Blocks() == PageRun(bs, lang, request).items
  {
    ghost var os := Outcomes(bs, lang, request);
    OutcomesOf(bs, lang, request);
    failure := TranslateBlocks(page.contents, bs, os, lang, request);
    assert PageRun(bs, lang, request) == BlocksRun(bs, os, |bs|);
  }

  /** One pass of the outer loop: page `i` is handled, and the book run moves on by one page. */
  method TranslatePageOf(book: Book, ghost pages: seq<PageValue>, ghost rs: seq<Run<Block>>, i: nat,
                         lang: string, request: string -> Reply) returns (failure: Option<Error>)
    requires book.Valid() && i < |book.pages| == |pages| == |rs| && PagesConsistent(pages)
    requires forall j :: 0 <= j < |pages| ==> RunOf(pages, rs, j, lang, request)
    requires BookRun(pages, rs, i).failure.None? && book.PageValues() == BookRun(pages, rs, i).items
    modifies book.pages[i].contents
    ensures failure == BookRun(pages, rs, i + 1).failure && book.PageValues() == BookRun(pages, rs, i + 1).items
  {
    assert RunOf(pages, rs, i, lang, request);
    BookRunStep(pages, rs, i);
    var page := book.pages[i];
    assert page.View() == book.PageAt(i) == pages[i];
    failure := TranslatePage(page, pages[i].blocks, lang, request);
    ghost var next := BookRun(pages, rs, i + 1).items;
    forall j | 0 <= j < |book.pages|
      ensures book.PageAt(j) == next[j]
    {
      if j != i {
        assert forall k :: 0 <= k < |book.pages[j].contents| ==> book.pages[j].contents[k] !in page.contents;
        assert book.pages[j].View() == old(book.pages[j].View());
      }
    }
    assert book.PageValues() == next;
  }

  /** The outer loop over the book's pages, page `i` being handled as `rs[i]` says. */
  method TranslatePages(book: Book, ghost pages: seq<PageValue>, ghost rs: seq<Run<Block>>,
                        lang: string, request: string -> Reply) returns (failure: Option<Error>)
    requires book.Valid() && |book.pages| == |pages| == |rs| && PagesConsistent(pages)
    requires (forall j :: 0 <= j < |pages| ==> RunOf(pages, rs, j, lang, request)) && book.PageValues() == pages
    modifies book.Contents()
    ensures failure == BookRun(pages, rs, |pages|).failure && book.PageValues() == BookRun(pages, rs, |pages|).items
  {
    failure := None;
    var i := 0;
    while i < |book.pages| && failure.None?
      invariant i <= |pages| && failure == BookRun(pages, rs, i).failure
      invariant book.PageValues() == BookRun(pages, rs, i).items
    {
      failure := TranslatePageOf(book, pages, rs, i, lang, request);
      i := i + 1;
    }
    if failure.Some? {
      BookRunStops(pages, rs, i, |pages|);
    }
  }

  /** The whole translation loop: the book ends as the translation run says, and so does the exception. */
  method TranslateBook(book: Book, ghost pages: seq<PageValue>, lang: string, request: string -> Reply)
    returns (failure: Option<Error>)
    requires book.Valid() && PagesConsistent(pages) && book.PageValues() == pages
    modifies book.Contents()
    ensures failure == TranslationRun(pages, lang, request).failure
    ensures book.View() == BookValue(book.pdfFilePath, TranslationRun(pages, lang, request).items)
  {
    ghost var rs := PageRuns(pages, lang, request);
    PageRunsOf(pages, lang, request);
    failure := TranslatePages(book, pages, rs, lang, request);
    assert TranslationRun(pages, lang, request) == BookRun(pages, rs, |pages|);
  }

  // ---------------------------------------------------------------- what the loops amount to

  /** A run that stopped did so with the exception of the first page whose run stopped. */
  lemma {:induction false} BookRunFailure(pages: seq<PageValue>, rs: seq<Run<Block>>, n: nat)
    requires n <= |pages| && |rs| == |pages|
    requires BookRun(pages, rs, n).failure.Some?
    ensures exists i :: 0 <= i < n && rs[i].failure == BookRun(pages, rs, n).failure &&
                        forall j :: 0 <= j < i ==> rs[j].failure.None?
  {
    var prev := BookRun(pages, rs, n - 1);
    if prev.failure.Some? {
      BookRunFailure(pages, rs, n - 1);
    } else {
      BookRunSucceeds(pages, rs, n - 1);
    }
  }

  /** A page run goes through exactly when every block of the page is handled without an exception. */
  lemma PageRunSucceeds(bs: seq<Block>, lang: string, request: string -> Reply)
    requires BlocksConsistent(bs)
    ensures PageRun(bs, lang, request).failure.None? <==> forall k :: 0 <= k < |bs| ==> TranslateBlock(bs[k], lang, request).Ok?
    ensures PageRun(bs, lang, request).failure.None? ==>
      forall k :: 0 <= k < |bs| ==> PageRun(bs, lang, request).items[k] == TranslateBlock(bs[k], lang, request).value
  {
    BlocksRunSucceeds(bs, Outcomes(bs, lang, request), |bs|);
  }

  /** A page run that stopped did so with the exception of the first block that raised. */
  lemma PageRunFailure(bs: seq<Block>, lang: string, request: string -> Reply)
    requires BlocksConsistent(bs) && PageRun(bs, lang, request).failure.Some?
    ensures exists k :: 0 <= k < |bs| && TranslateBlock(bs[k], lang, request) == Err(PageRun(bs, lang, request).failure.value)
  {
    BlocksRunFailure(bs, Outcomes(bs, lang, request), |bs|);
  }

  /** Every block of every page is handled without an exception. */
  predicate Translates(pages: seq<PageValue>, lang: string, request: string -> Reply)
    requires PagesConsistent(pages)
  {
    forall i, k :: 0 <= i < |pages| && 0 <= k < |pages[i].blocks| ==> TranslateBlock(pages[i].blocks[k], lang, request).Ok?
  }

  /** The reference result: every block replaced, on its own, by what handling it gives. */
  function TranslatedPages(pages: seq<PageValue>, lang: string, request: string -> Reply): (ts: seq<PageValue>)
    requires PagesConsistent(pages) && Translates(pages, lang, request)
  {
    seq(|pages|, i requires 0 <= i < |pages| =>
      PageValue(seq(|pages[i].blocks|, k requires 0 <= k < |pages[i].blocks| =>
                      TranslateBlock(pages[i].blocks[k], lang, request).value),
                pages[i].margins))
  }

  /**
   * The translation loop goes through exactly when every block of every page is handled
   * without an exception, and then the book is the reference result, block for block.
   */
  lemma TranslationSucceeds(pages: seq<PageValue>, lang: string, request: string -> Reply)
    requires PagesConsistent(pages)
    ensures TranslationRun(pages, lang, request).failure.None? <==> Translates(pages, lang, request)
    ensures TranslationRun(pages, lang, request).failure.None? ==>
      TranslationRun(pages, lang, request).items == TranslatedPages(pages, lang, request)
  {
    var rs := PageRuns(pages, lang, request);
    var run := TranslationRun(pages, lang, request);
    BookRunSucceeds(pages, rs, |pages|);
    forall i | 0 <= i < |pages| {
      PageRunSucceeds(pages[i].blocks, lang, request);
    }
    if run.failure.None? {
      var ts := TranslatedPages(pages, lang, request);
      forall i | 0 <= i < |pages|
        ensures run.items[i] == ts[i]
      {
        assert run.items[i].margins == pages[i].margins;
        assert run.items[i].blocks == ts[i].blocks;
      }
    }
  }

  /** A translation loop that stopped did so with the exception some block raised. */
  lemma TranslationFailure(pages: seq<PageValue>, lang: string, request: string -> Reply)
    requires PagesConsistent(pages) && TranslationRun(pages, lang, request).failure.Some?
    ensures exists i, k ::
      0 <= i < |pages| && 0 <= k < |pages[i].blocks| &&
      TranslateBlock(pages[i].blocks[k], lang, request) == Err(TranslationRun(pages, lang, request).failure.value)
  {
    var rs := PageRuns(pages, lang, request);
    BookRunFailure(pages, rs, |pages|);
    var i :| 0 <= i < |pages| && rs[i].failure == TranslationRun(pages, lang, request).failure;
    PageRunFailure(pages[i].blocks, lang, request);
  }

  /**
   * The loop changes only translations and flags, so a book whose blocks carry the
   * parser's attributes still does afterwards, and the PDF writer finds none missing.
   */
  lemma RunAssigned(pages: seq<PageValue>, lang: string, request: string -> Reply)
    requires PagesConsistent(pages) && PagesAssigned(pages)
    ensures PagesAssigned(TranslationRun(pages, lang, request).items)
    ensures StoryMissing(TranslationRun(pages, lang, request).items).None?
  {
    var items := TranslationRun(pages, lang, request).items;
    forall i, k | 0 <= i < |items| && 0 <= k < |items[i].blocks|
      ensures Consistent(items[i].blocks[k]) && Assigned(items[i].blocks[k])
    {
      assert Kept(pages[i].blocks[k], items[i].blocks[k]);
    }
    NothingMissing(items);
  }

  // ---------------------------------------------------------------- translate_pdf

  /** Every block the parser produces is consistent with its kind. */
  lemma ParsedConsistent(path: string, pdf: seq<PdfParser.PdfPage>, pages: Option<int>)
    requires PdfParser.Parsable(pdf, pages)
    ensures PdfParser.BookSpec(path, pdf, pages).Ok? ==> PagesConsistent(PdfParser.BookSpec(path, pdf, pages).value.pages)
  {
    if PdfParser.BookSpec(path, pdf, pages).Ok? {
      var parsed, sel := PdfParser.BookSpec(path, pdf, pages).value.pages, PdfParser.Selected(pdf, pages);
      PdfParser.BookPages(path, pdf, pages);
      forall i | 0 <= i < |parsed| ensures BlocksConsistent(parsed[i].blocks) {
        PdfParser.PageBlocksConsistent(sel[i]);
      }
    }
  }

  /** Every block the parser produces carries the attributes the PDF writer reads. */
  lemma ParsedAssigned(path: string, pdf: seq<PdfParser.PdfPage>, pages: Option<int>)
    requires PdfParser.Parsable(pdf, pages)
    ensures PdfParser.BookSpec(path, pdf, pages).Ok? ==> PagesAssigned(PdfParser.BookSpec(path, pdf, pages).value.pages)
  {
    if PdfParser.BookSpec(path, pdf, pages).Ok? {
      var parsed, sel := PdfParser.BookSpec(path, pdf, pages).value.pages, PdfParser.Selected(pdf, pages);
      PdfParser.BookPages(path, pdf, pages);
      forall i, k | 0 <= i < |parsed| && 0 <= k < |parsed[i].blocks| ensures Assigned(parsed[i].blocks[k]) {
        PdfParser.PageBlocksConsistent(sel[i]);
      }
    }
  }

  /**
   * What `translate_pdf` does with the parsed pages: the first exception of the
   * translation loop, or else what the writer makes of the translated book.
   */
  function TranslatedOutput(request: string -> Reply, detect: seq<bv8> -> Option<string>, path: string,
                            parsed: seq<PageValue>, fileFormat: string, lang: string,
                            outputPath: Option<string>): Result<Document, Error>
    requires PagesConsistent(parsed)
  {
    var run := TranslationRun(parsed, lang, request);
    if run.failure.Some? then Err(run.failure.value)
    else SaveSpec(BookValue(path, run.items), outputPath, fileFormat, detect)
  }

  /**
   * What `translate_pdf` gives: the parser's exception, or else what the loop and the
   * writer make of the parsed pages.
   */
  function TranslatePdfSpec(request: string -> Reply, detect: seq<bv8> -> Option<string>, path: string,
                            pdf: seq<PdfParser.PdfPage>, fileFormat: string, lang: string,
                            outputPath: Option<string>, pages: Option<int>): Result<Document, Error>
    requires PdfParser.Parsable(pdf, pages)
  {
    match PdfParser.BookSpec(path, pdf, pages)
    case Err(e) => Err(e)
    case Ok(book) =>
      ParsedConsistent(path, pdf, pages);
      TranslatedOutput(request, detect, path, book.pages, fileFormat, lang, outputPath)
  }

  /** The body of `translate_pdf` after parsing: the loop over the book, then the writer. */
  method TranslateAndSave(request: string -> Reply, detect: seq<bv8> -> Option<string>, book: Book,
                          ghost parsed: seq<PageValue>, fileFormat: string, lang: string,
                          outputPath: Option<string>) returns (r: Result<Document, Error>)
    requires book.Valid() && PagesConsistent(parsed) && book.PageValues() == parsed
    modifies book.Contents()
    ensures r == TranslatedOutput(request, detect, old(book.pdfFilePath), parsed, fileFormat, lang, outputPath)
  {
    var failure := TranslateBook(book, parsed, lang, request);
    if failure.Some? {
      return Err(failure.value);
    }
    r := SaveTranslatedBook(book, BookValue(book.pdfFilePath, TranslationRun(parsed, lang, request).items),
                            outputPath, fileFormat, detect);
  }

  /**
   * `translate_pdf(pdf_file_path, file_format, target_language, output_file_path, pages)`
   * with the source's defaults; `request` is the model's `make_request`, `pdf` the
   * file's pages, `detect` the image-type sniffer the writer uses.
   */
  method TranslatePdf(request: string -> Reply, detect: seq<bv8> -> Option<string>, path: string,
                      pdf: seq<PdfParser.PdfPage>, fileFormat: string := "markdown", lang: string := "中文",
                      outputPath: Option<string> := None, pages: Option<int> := None)
    returns (r: Result<Document, Error>)
    requires PdfParser.Parsable(pdf, pages)
    ensures r == TranslatePdfSpec(request, detect, path, pdf, fileFormat, lang, outputPath, pages)
  {
    var parsed := PdfParser.ParserPdf(path, pdf, pages);
    if parsed.Err? {
      return Err(parsed.error);
    }
    var book := parsed.value;
    ParsedConsistent(path, pdf, pages);
    r := TranslateAndSave(request, detect, book, PdfParser.BookSpec(path, pdf, pages).value.pages,
                          fileFormat, lang, outputPath);
  }

  /** The parsed pages all carry their margins. */
  lemma ParsedMargins(path: string, pdf: seq<PdfParser.PdfPage>, pages: Option<int>)
    requires PdfParser.Parsable(pdf, pages)
    ensures PdfParser.BookSpec(path, pdf, pages).Ok? ==>
      forall i :: 0 <= i < |PdfParser.BookSpec(path, pdf, pages).value.pages| ==>
        PdfParser.BookSpec(path, pdf, pages).value.pages[i].margins.Some?
  {
    if PdfParser.BookSpec(path, pdf, pages).Ok? {
      PdfParser.BookPages(path, pdf, pages);
    }
  }

  /**
   * After parsing, `translate_pdf` fails exactly when some block's handling raises, when
   * the format is neither PDF nor Markdown, or when the PDF writer meets a translated
   * block lacking an attribute it reads; blocks that carry the parser's attributes never
   * lack one.
   */
  lemma OutputFails(request: string -> Reply, detect: seq<bv8> -> Option<string>, path: string,
                    parsed: seq<PageValue>, fileFormat: string, lang: string, outputPath: Option<string>)
    requires PagesConsistent(parsed) && forall i :: 0 <= i < |parsed| ==> parsed[i].margins.Some?
    ensures TranslatedOutput(request, detect, path, parsed, fileFormat, lang, outputPath).Err? <==>
      !Translates(parsed, lang, request) || FormatOf(fileFormat).None?
      || (FormatOf(fileFormat) == Some(Pdf) && StoryMissing(TranslatedPages(parsed, lang, request)).Some?)
    ensures PagesAssigned(parsed) ==>
      (TranslatedOutput(request, detect, path, parsed, fileFormat, lang, outputPath).Err? <==>
       !Translates(parsed, lang, request) || FormatOf(fileFormat).None?)
  {
    TranslationSucceeds(parsed, lang, request);
    var run := TranslationRun(parsed, lang, request);
    SaveFailsOnlyFor(BookValue(path, run.items), outputPath, fileFormat, detect);
    NoMarkdownError(run.items);
    if PagesAssigned(parsed) {
      RunAssigned(parsed, lang, request);
    }
  }

  /**
   * `translate_pdf` fails exactly when parsing raises (too many pages, or a `None` table
   * cell), when some block's handling raises, or when the format is neither PDF nor
   * Markdown; a parser exception is passed on as it is. The writer's `AttributeError`
   * never arises here, since parsed blocks carry every attribute it reads.
   */
  lemma TranslatePdfFails(request: string -> Reply, detect: seq<bv8> -> Option<string>, path: string,
                          pdf: seq<PdfParser.PdfPage>, fileFormat: string, lang: string,
                          outputPath: Option<string>, pages: Option<int>)
    requires PdfParser.Parsable(pdf, pages)
    ensures PdfParser.BookSpec(path, pdf, pages).Ok? ==> PagesConsistent(PdfParser.BookSpec(path, pdf, pages).value.pages)
    ensures TranslatePdfSpec(request, detect, path, pdf, fileFormat, lang, outputPath, pages).Err? <==>
      PdfParser.BookSpec(path, pdf, pages).Err?
      || !Translates(PdfParser.BookSpec(path, pdf, pages).value.pages, lang, request)
      || FormatOf(fileFormat).None?
    ensures PdfParser.BookSpec(path, pdf, pages).Err? ==>
      TranslatePdfSpec(request, detect, path, pdf, fileFormat, lang, outputPath, pages)
      == Err(PdfParser.BookSpec(path, pdf, pages).error)
    ensures PdfParser.TooMany(pdf, pages) ==>
      TranslatePdfSpec(request, detect, path, pdf, fileFormat, lang, outputPath, pages) == Err(PageOutOfRange(0, pages.value))
  {
    ParsedConsistent(path, pdf, pages);
    ParsedMargins(path, pdf, pages);
    ParsedAssigned(path, pdf, pages);
    if PdfParser.BookSpec(path, pdf, pages).Ok? {
      OutputFails(request, detect, path, PdfParser.BookSpec(path, pdf, pages).value.pages, fileFormat, lang, outputPath);
    }
  }

  /**
   * When parsing and every block's translation go through, `translate_pdf` gives what
   * the writer makes of the parsed book with every block replaced, on its own, by its
   * translated version.
   */
  lemma TranslatePdfTranslated(request: string -> Reply, detect: seq<bv8> -> Option<string>, path: string,
                               pdf: seq<PdfParser.PdfPage>, fileFormat: string, lang: string,
                               outputPath: Option<string>, pages: Option<int>)
    requires PdfParser.Parsable(pdf, pages)
    ensures PdfParser.BookSpec(path, pdf, pages).Ok? ==> PagesConsistent(PdfParser.BookSpec(path, pdf, pages).value.pages)
    ensures PdfParser.BookSpec(path, pdf, pages).Ok? && Translates(PdfParser.BookSpec(path, pdf, pages).value.pages, lang, request) ==>
      TranslatePdfSpec(request, detect, path, pdf, fileFormat, lang, outputPath, pages)
      == SaveSpec(BookValue(path, TranslatedPages(PdfParser.BookSpec(path, pdf, pages).value.pages, lang, request)),
                  outputPath, fileFormat, detect)
  {
    ParsedConsistent(path, pdf, pages);
    if PdfParser.BookSpec(path, pdf, pages).Ok? {
      TranslationSucceeds(PdfParser.BookSpec(path, pdf, pages).value.pages, lang, request);
    }
  }

  /** With the base model, the loop stops with `NotImplementedError` once there is a block to translate. */
  lemma BaseRunRaises(pages: seq<PageValue>, i: nat, k: nat, lang: string)
    requires PagesConsistent(pages) && i < |pages| && k < |pages[i].blocks| && pages[i].blocks[k].kind != Image
    ensures TranslationRun(pages, lang, BaseMakeRequest).failure == Some(NotImplemented("子类必须实现该方法"))
  {
    var run := TranslationRun(pages, lang, BaseMakeRequest);
    BlockFailures(pages[i].blocks[k], lang, BaseMakeRequest);
    TranslationSucceeds(pages, lang, BaseMakeRequest);
    TranslationFailure(pages, lang, BaseMakeRequest);
    var j, l :| 0 <= j < |pages| && 0 <= l < |pages[j].blocks| &&
      TranslateBlock(pages[j].blocks[l], lang, BaseMakeRequest) == Err(run.failure.value);
    BlockFailures(pages[j].blocks[l], lang, BaseMakeRequest);
  }

  /** With images only, the loop goes through and leaves every page as it was, whatever the model. */
  lemma ImagesOnlyRun(pages: seq<PageValue>, lang: string, request: string -> Reply)
    requires PagesConsistent(pages)
    requires forall i, k :: 0 <= i < |pages| && 0 <= k < |pages[i].blocks| ==> pages[i].blocks[k].kind == Image
    ensures TranslationRun(pages, lang, request) == Run(pages, None)
  {
    TranslationSucceeds(pages, lang, request);
    var ts := TranslatedPages(pages, lang, request);
    forall i | 0 <= i < |pages|
      ensures ts[i] == pages[i]
    {
      assert ts[i].blocks == pages[i].blocks;
    }
  }

  /** What the base model makes of parsed pages: that exception, or the pages written out untouched. */
  lemma BaseOutput(detect: seq<bv8> -> Option<string>, path: string, parsed: seq<PageValue>,
                   fileFormat: string, lang: string, outputPath: Option<string>)
    requires PagesConsistent(parsed)
    ensures (exists i, k :: 0 <= i < |parsed| && 0 <= k < |parsed[i].blocks| && parsed[i].blocks[k].kind != Image) ==>
      TranslatedOutput(BaseMakeRequest, detect, path, parsed, fileFormat, lang, outputPath)
      == Err(NotImplemented("子类必须实现该方法"))
    ensures (forall i, k :: 0 <= i < |parsed| && 0 <= k < |parsed[i].blocks| ==> parsed[i].blocks[k].kind == Image) ==>
      TranslatedOutput(BaseMakeRequest, detect, path, parsed, fileFormat, lang, outputPath)
      == SaveSpec(BookValue(path, parsed), outputPath, fileFormat, detect)
  {
    if exists i, k :: 0 <= i < |parsed| && 0 <= k < |parsed[i].blocks| && parsed[i].blocks[k].kind != Image {
      var i, k :| 0 <= i < |parsed| && 0 <= k < |parsed[i].blocks| && parsed[i].blocks[k].kind != Image;
      BaseRunRaises(parsed, i, k, lang);
    } else {
      ImagesOnlyRun(parsed, lang, BaseMakeRequest);
    }
  }

  /**
   * With the abstract base model, whose `make_request` always raises `NotImplementedError`,
   * a parsed book fails with that exception as soon as its pages hold a text or table
   * block; a book of images only is written out untouched.
   */
  lemma BaseModelFails(detect: seq<bv8> -> Option<string>, path: string, pdf: seq<PdfParser.PdfPage>,
                       fileFormat: string, lang: string, outputPath: Option<string>, pages: Option<int>)
    requires PdfParser.Parsable(pdf, pages)
    ensures PdfParser.BookSpec(path, pdf, pages).Ok? ==>
      var parsed := PdfParser.BookSpec(path, pdf, pages).value.pages;
      (exists i, k :: 0 <= i < |parsed| && 0 <= k < |parsed[i].blocks| && parsed[i].blocks[k].kind != Image) ==>
      TranslatePdfSpec(BaseMakeRequest, detect, path, pdf, fileFormat, lang, outputPath, pages)
      == Err(NotImplemented("子类必须实现该方法"))
    ensures PdfParser.BookSpec(path, pdf, pages).Ok? ==>
      var parsed := PdfParser.BookSpec(path, pdf, pages).value.pages;
      (forall i, k :: 0 <= i < |parsed| && 0 <= k < |parsed[i].blocks| ==> parsed[i].blocks[k].kind == Image) ==>
      TranslatePdfSpec(BaseMakeRequest, detect, path, pdf, fileFormat, lang, outputPath, pages)
      == SaveSpec(PdfParser.BookSpec(path, pdf, pages).value, outputPath, fileFormat, detect)
  {
    ParsedConsistent(path, pdf, pages);
    if PdfParser.BookSpec(path, pdf, pages).Ok? {
      BaseOutput(detect, path, PdfParser.BookSpec(path, pdf, pages).value.pages, fileFormat, lang, outputPath);
    }
  }
}
