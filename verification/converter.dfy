/**
  The conversion entry point: a blank or missing input converts to the empty
  string; anything else is parsed, rendered from the document root and
  post-processed. Parsing is outside the model, so the parsed document is a
  parameter next to the text it was parsed from. `Convert` uses the
  post-processing as written; `ConvertPositional` is the same pipeline with
  the block and marker restores that read the text positionally.
*/
module Converter {
  import opened Wrappers
  import opened Strings
  import opened Tree
  import opened Renderer
  import opened Protect
  import opened PostProcess

  /** The default options: no code-block theme. */
  const Defaults := Options(None)

  /** Converts `markdown`, whose parse is `doc`, to Confluence wiki markup. */
  function Convert(markdown: Option<string>, doc: Node, opts: Options): (r: string)
    ensures r == "" <==> markdown == None || IsBlank(markdown.value)
    ensures r != "" ==> r[|r| - 1] == '\n'
    ensures |r| > 1 ==> !IsWhitespace(r[0]) && !IsWhitespace(r[|r| - 2])
  {
    if markdown == None || IsBlank(markdown.value) then ""
    else PostProcess.PostProcess(Render(doc, Start, opts))
  }

  /** The one-argument overload converts with the default options. */
  function ConvertDefault(markdown: Option<string>, doc: Node): (r: string)
    ensures r == "" <==> markdown == None || IsBlank(markdown.value)
  {
    Convert(markdown, doc, Defaults)
  }

  /** The conversion with the positional block and marker restores. */
  function ConvertPositional(markdown: Option<string>, doc: Node, opts: Options): (r: string)
    ensures r == "" <==> markdown == None || IsBlank(markdown.value)
    ensures r != "" ==> r[|r| - 1] == '\n'
    ensures |r| > 1 ==> !IsWhitespace(r[0]) && !IsWhitespace(r[|r| - 2])
  {
    if markdown == None || IsBlank(markdown.value) then ""
    else PostProcessPositional(Render(doc, Start, opts))
  }

  /**
    A non-blank input whose rendering holds no NUL, and whose pieces between
    code blocks do not start like a placeholder body once stars and newlines
    are dropped, converts with every `{code}` block kept verbatim and in
    place, and every piece between blocks changed only in stars and newlines.
  */
  lemma ConvertKeepsBlocks(markdown: string, doc: Node, opts: Options)
    requires !IsBlank(markdown)
    requires NoChar(Render(doc, Start, opts), NUL)
    requires SqueezedGapsClean(Scan(Render(doc, Start, opts), 0).0)
    ensures var (lits, blocks) := Scan(Render(doc, Start, opts), 0);
            Convert(Some(markdown), doc, opts) == Finalize(Splice(Rewritten(lits), blocks))
            && SameSqueeze(Rewritten(lits), lits)
  {
    PostProcessKeepsBlocks(Render(doc, Start, opts));
  }

  /** With the positional restore the blocks survive for every NUL-free rendering. */
  lemma ConvertPositionalKeepsBlocks(markdown: string, doc: Node, opts: Options)
    requires !IsBlank(markdown)
    requires NoChar(Render(doc, Start, opts), NUL)
    ensures var (lits, blocks) := Scan(Render(doc, Start, opts), 0);
            ConvertPositional(Some(markdown), doc, opts) == Finalize(Splice(Rewritten(lits), blocks))
            && SameSqueeze(Rewritten(lits), lits)
  {
    PostProcessPositionalKeepsBlocks(Render(doc, Start, opts));
  }

  /** Where the pieces between blocks are clean, the post-processing as written gives the same text. */
  lemma AsWrittenAgrees(raw: string)
    requires NoChar(raw, NUL) && SqueezedGapsClean(Scan(raw, 0).0)
    ensures PostProcess.PostProcess(raw) == PostProcessPositional(raw)
  {
    PostProcessKeepsBlocks(raw);
    PostProcessPositionalKeepsBlocks(raw);
  }
}
