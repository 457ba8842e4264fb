/** A page of the book: its blocks in reading order and the margins the parser infers. */
module PageModel {
  import opened Wrappers
  import opened ContentModel

  datatype Margins = Margins(left: real, right: real, top: real, bottom: real)

  /** A snapshot of a page: its blocks' attributes and its margins (`None` until assigned). */
  datatype PageValue = PageValue(blocks: seq<Block>, margins: Option<Margins>)

  class Page {
    var contents: seq<Content>
    var margins: Option<Margins>

    /** `Page()`: no blocks, and no margins until the parser assigns them. */
    constructor ()
      ensures contents == [] && margins == None
    {
      contents := [];
      margins := None;
    }

    /** `add_content`: appends at the end; earlier blocks stay, in order. */
    method AddContent(content: Content)
      modifies this`contents
      ensures contents == old(contents) + [content]
      ensures |contents| == |old(contents)| + 1 && contents[..|old(contents)|] == old(contents)
    {
      contents := contents + [content];
    }

    function Blocks(): (bs: seq<Block>)
      reads this, contents
      ensures |bs| == |contents| && forall k :: 0 <= k < |contents| ==> bs[k] == contents[k].View()
    {
      seq(|contents|, k reads this, contents requires 0 <= k < |contents| => contents[k].View())
    }

    function View(): PageValue
      reads this, contents
    {
      PageValue(Blocks(), margins)
    }
  }
}
