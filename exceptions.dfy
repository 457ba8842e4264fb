/**
 * The exceptions the translator core raises, one constructor per exception class
 * the source raises or lets escape, and the message of `PageOutOfRangeException`.
 */
module Exceptions {
  import opened PyStrings

  datatype Error =
      /** `PageOutOfRangeException(book_pages, requested_pages)`. */
    | PageOutOfRange(bookPages: int, requestedPages: int)
      /**
       * `TypeError` with Python's message: from `raise "ERROR"`, which raises a plain
       * string and so fails with `NotAnException`, or from `str.join` over a `None` item.
       */
    | TypeErr(message: string)
      /** `Exception("暂时不支持保存为 … 文件")` from the writer's format dispatch. */
    | UnsupportedFormat(fileFormat: string)
      /** `KeyError` from indexing a dict that lacks the key. */
    | KeyMissing(key: string)
      /** `NotImplementedError` from the abstract `make_request`. */
    | NotImplemented(message: string)
      /** `ValueError` from the table block's shape check. */
    | ValueErr(message: string)
      /** `IndexError` from indexing an empty list. */
    | IndexErr
      /** `AttributeError` from reading an attribute that was never assigned. */
    | MissingAttribute(name: string)
      /** Whatever a concrete model client raises; its contents are not modelled. */
    | ClientFailure(reason: string)

  /** What Python 3 says when the object after `raise` is not an exception. */
  const NotAnException: string := "exceptions must derive from BaseException"

  const MessageHead: string := "PDF请求页码越界：PDF 只有 "
  const MessageMiddle: string := " 页，但是请求了第 "
  const MessageTail: string := " 页 "

  /** The text passed to `Exception.__init__`: the book's page count first, the request second. */
  function PageOutOfRangeMessage(bookPages: int, requestedPages: int): (m: string)
    ensures |m| > |MessageHead| && m[..|MessageHead|] == MessageHead
  {
    MessageHead + IntToString(bookPages) + MessageMiddle + IntToString(requestedPages) + MessageTail
  }

  lemma DropEqualPrefix(p: string, x: string, y: string)
    requires p + x == p + y
    ensures x == y
  {
    assert x == (p + x)[|p|..];
    assert y == (p + y)[|p|..];
  }

  lemma Reassociate(h: string, u: string, m: string, v: string, t: string)
    ensures h + u + m + v + t == h + (u + (m + (v + t)))
  {
  }

  /** Two numbers printed between fixed texts that start with a space can be read back. */
  lemma TwoNumbersUnique(h: string, m: string, t: string, a: int, b: int, c: int, d: int)
    requires m != [] && m[0] == ' ' && t != [] && t[0] == ' '
    requires h + IntToString(a) + m + IntToString(b) + t == h + IntToString(c) + m + IntToString(d) + t
    ensures a == c && b == d
  {
    var sa, sb, sc, sd := IntToString(a), IntToString(b), IntToString(c), IntToString(d);
    Reassociate(h, sa, m, sb, t);
    Reassociate(h, sc, m, sd, t);
    DropEqualPrefix(h, sa + (m + (sb + t)), sc + (m + (sd + t)));
    IntPrefixUnique(a, m + (sb + t), c, m + (sd + t));
    DropEqualPrefix(m, sb + t, sd + t);
    IntPrefixUnique(b, t, d, t);
  }

  /**
   * The message determines both numbers, in order: the page count is the first
   * number printed and the requested page the second.
   */
  lemma MessageDeterminesFields(a: int, b: int, c: int, d: int)
    requires PageOutOfRangeMessage(a, b) == PageOutOfRangeMessage(c, d)
    ensures a == c && b == d
  {
    TwoNumbersUnique(MessageHead, MessageMiddle, MessageTail, a, b, c, d);
  }

  /** The message for an empty book asking for page 5. */
  lemma EmptyBookMessage()
    ensures PageOutOfRangeMessage(0, 5) == "PDF请求页码越界：PDF 只有 0 页，但是请求了第 5 页 "
  {
    assert NatToString(0) == "0";
    assert NatToString(5) == "5";
  }
}
