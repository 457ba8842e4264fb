/** The book: the source file's path and its pages in order. */
module BookModel {
  import opened Wrappers
  import opened ContentModel
  import opened PageModel

  /** A snapshot of a whole book. */
  datatype BookValue = BookValue(path: string, pages: seq<PageValue>)

  class Book {
    var pdfFilePath: string
    var pages: seq<Page>

    /** `Book(pdf_file_path)`: the path as given, no pages. */
    constructor (pdfFilePath: string)
      ensures this.pdfFilePath == pdfFilePath && pages == []
    {
      this.pdfFilePath := pdfFilePath;
      pages := [];
    }

    /** `add_page`: appends at the end; earlier pages and the path stay. */
    method AddPage(page: Page)
      modifies this`pages
      ensures pages == old(pages) + [page]
      ensures |pages| == |old(pages)| + 1 && pages[..|old(pages)|] == old(pages)
    {
      pages := pages + [page];
    }

    /** Every block object of the book. */
    ghost function Contents(): set<Content>
      reads this, pages
    {
      set i, k | 0 <= i < |pages| && 0 <= k < |pages[i].contents| :: pages[i].contents[k]
    }

    /**
     * No page occurs twice, and no block object occurs twice anywhere in the book, so
     * updating one block changes exactly one position.
     */
    ghost predicate Valid()
      reads this, pages
    {
      (forall i, j :: 0 <= i < j < |pages| ==> pages[i] != pages[j])
      && (forall i, k, j, l ::
            0 <= i < |pages| && 0 <= k < |pages[i].contents| &&
            0 <= j < |pages| && 0 <= l < |pages[j].contents| && (i != j || k != l) ==>
            pages[i].contents[k] != pages[j].contents[l])
    }

    function PageValues(): (ps: seq<PageValue>)
      reads this, pages, Contents()
      ensures |ps| == |pages|
    {
      seq(|pages|, i reads this, pages, Contents() requires 0 <= i < |pages| => PageAt(i))
    }

    function PageAt(i: nat): PageValue
      reads this, pages, Contents()
      requires i < |pages|
    {
      assert forall k :: 0 <= k < |pages[i].contents| ==> pages[i].contents[k] in Contents();
      pages[i].View()
    }

    function View(): BookValue
      reads this, pages, Contents()
    {
      BookValue(pdfFilePath, PageValues())
    }
  }
}
