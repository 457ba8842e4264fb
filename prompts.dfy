/**
 * The base language-model interface: the two prompt templates, the dispatch on the
 * block's kind, and the abstract request, which a concrete client replaces.
 */
module ModelPrompts {
  import opened Wrappers
  import opened Exceptions
  import opened ContentModel

  /** What `make_request` gives back: a `(translation, status)` pair, or the exception it raises. */
  datatype Reply = Answer(translation: Value, status: bool) | Raised(error: Error)

  const PromptHead: string := "翻译为"
  const TextInstruction: string := "，不要添加多余信息："
  const TableInstruction: string := "，不要添加多余信息，保持间距（空格、分隔符），以表格形式返回：\n"

  /** `get_text_prompt(text, target_language)`. */
  function TextPrompt(text: string, lang: string): (p: string)
    ensures |p| == |PromptHead| + |lang| + |TextInstruction| + |text|
    ensures p[|p| - |text|..] == text
  {
    PromptHead + lang + TextInstruction + text
  }

  /** `get_table_prompt(table, target_language)`. */
  function TablePrompt(table: string, lang: string): (p: string)
    ensures |p| == |PromptHead| + |lang| + |TableInstruction| + |table|
    ensures p[|p| - |table|..] == table
  {
    PromptHead + lang + TableInstruction + table
  }

  /**
   * For a fixed language, dropping the fixed prefix gives the text back, so different
   * texts give different prompts.
   */
  lemma TextPromptRecoversText(text: string, lang: string)
    ensures TextPrompt(text, lang)[|PromptHead| + |lang| + |TextInstruction|..] == text
  {
  }

  /**
   * A text prompt and a table prompt for the same language are never equal: right after
   * the language they share nine characters and then part ways.
   */
  lemma TextAndTablePromptsDiffer(text: string, table: string, lang: string)
    ensures TextPrompt(text, lang) != TablePrompt(table, lang)
  {
    var k := |PromptHead| + |lang| + 9;
    assert TextPrompt(text, lang)[k] == TextInstruction[9] == '：';
    assert TablePrompt(table, lang)[k] == TableInstruction[9] == '，';
  }

  /**
   * `get_translate_prompt`: the text prompt of a text block's original, the table prompt
   * of a table's original grid as text, and nothing (`None`) for an image.
   */
  function TranslatePrompt(b: Block, lang: string): (r: Option<string>)
    requires Consistent(b)
    ensures r.None? <==> b.kind == Image
  {
    match b.kind
    case Text => Some(TextPrompt(b.original.s, lang))
    case Table => Some(TablePrompt(OriginalAsStr(b), lang))
    case Image => None
  }

  /** A text block's prompt ends with its original text. */
  lemma TextBlockPrompt(b: Block, lang: string)
    requires Consistent(b) && b.kind == Text
    ensures TranslatePrompt(b, lang).Some?
    ensures var p := TranslatePrompt(b, lang).value;
      p[|p| - |b.original.s|..] == b.original.s
  {
  }

  /** The abstract `make_request`: every call raises `NotImplementedError`. */
  function BaseMakeRequest(prompt: string): Reply {
    Raised(NotImplemented("子类必须实现该方法"))
  }
}
