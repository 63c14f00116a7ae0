/** The reader page's pure decisions: whether a text is shown as an HTML page,
    what the address bar turns its input into, whether a URL is a PDF, what
    the model is told about the page on the left, and when a summary is
    refused before asking. */
module Prompt {
  import opened Strings

  /** `MarkdownRenderer`: trimmed content starting with `<` is shown as an
      isolated HTML page, anything else is rendered as Markdown. */
  predicate IsHtml(content: string) {
    StartsWith(Trim(content), "<")
  }

  /** Leading and trailing white space never changes how a text is shown. */
  lemma IsHtmlIgnoresSpace(a: string, content: string, b: string)
    requires IsBlank(a) && IsBlank(b)
    ensures IsHtml(a + content + b) <==> IsHtml(content)
  {
    TrimPadded(a, content, b);
  }

  // ---------------------------------------------------------------- the address bar

  /** What the address bar writes when a local PDF is open. */
  const LocalPrefix := "[本地文件]"
  const SearchPrefix := "https://cn.bing.com/search?q="

  /** The URL a trimmed, non-ignored input stands for: itself when it has an
      http(s) scheme, `https://` in front when it looks like a host name (it
      holds a `.`), and otherwise a web search for it, encoded by `encode`
      (`encodeURIComponent`). */
  function Target(u: string, encode: string -> string): (r: string)
    ensures HasHttpScheme(r)
    ensures r == u <==> HasHttpScheme(u)
    ensures !HasHttpScheme(u) && Contains(u, ".") ==> r == "https://" + u
    ensures !HasHttpScheme(u) && !Contains(u, ".") ==> r == SearchPrefix + encode(u)
  {
    if HasHttpScheme(u) then u
    else if Contains(u, ".") then
      HttpsScheme(u);
      "https://" + u
    else
      SearchScheme(encode(u));
      SearchPrefix + encode(u)
  }

  lemma SearchScheme(q: string)
    ensures HasHttpScheme(SearchPrefix + q)
  {
    HttpsScheme("cn.bing.com/search?q=" + q);
    assert SearchPrefix + q == "https://" + ("cn.bing.com/search?q=" + q);
  }

  /** What pressing Enter in the address bar leads to. */
  datatype Address =
    | Ignored              // nothing typed, or the local-file label
    | Invalid(url: string) // `new URL(url)` throws: a modal asks for a valid URL
    | Go(url: string)      // `navigateToUrl(url)`

  /** `handleUrl`: the input is trimmed; blank input and the local-file label
      are ignored; otherwise the target URL is checked by `valid` (the URL
      parser accepting it) and either opened or refused. */
  function AddressFor(input: string, encode: string -> string, valid: string -> bool): (r: Address)
    ensures r.Ignored? <==> IsBlank(input) || StartsWith(Trim(input), LocalPrefix)
    ensures !r.Ignored? ==> r.url == Target(Trim(input), encode) && HasHttpScheme(r.url) && r.url != ""
    ensures r.Go? <==> !r.Ignored? && valid(r.url)
  {
    var u := Trim(input);
    if u == [] || StartsWith(u, LocalPrefix) then Ignored
    else
      var url := Target(u, encode);
      if valid(url) then Go(url) else Invalid(url)
  }

  /** The label written after a local upload can never be opened by pressing
      Enter: it is always ignored, whatever the file is called. */
  lemma LocalLabelIgnored(name: string, encode: string -> string, valid: string -> bool)
    ensures AddressFor(LocalPrefix + " " + name, encode, valid) == Ignored
  {
    var s := LocalPrefix + " " + name;
    var n := |LocalPrefix|;
    assert s[..n] == LocalPrefix;
    var r := Trim(s);
    var t := TrimStart(s);
    assert !IsSpace(s[0]);
    assert t == s;
    assert r == TrimEnd(s);
    TrimEndKeeps(s, n - 1);
    assert r[..n] == s[..n];
  }

  // ---------------------------------------------------------------- routing

  /** `navigateToUrl`'s test: the lower-cased URL ends with `.pdf` or
      contains `.pdf?`. */
  predicate IsPdfUrl(url: string) {
    EndsWith(AsciiLower(url), ".pdf") || Contains(AsciiLower(url), ".pdf?")
  }

  /** The test ignores letter case. */
  lemma PdfUrlIgnoresCase(url: string)
    ensures IsPdfUrl(AsciiLower(url)) <==> IsPdfUrl(url)
  {
    assert AsciiLower(AsciiLower(url)) == AsciiLower(url);
  }

  /** A URL ending in `.pdf` in any letter case is a PDF. */
  lemma PdfSuffix(stem: string, ext: string)
    requires AsciiLower(ext) == ".pdf"
    ensures IsPdfUrl(stem + ext)
  {
    var u := stem + ext;
    assert AsciiLower(u)[|u| - 4..] == AsciiLower(ext);
  }

  // ---------------------------------------------------------------- the model's context

  /** What the left pane shows. */
  datatype ViewMode = PdfMode | FetchedMode | NoMode

  datatype Kind = PdfKind | WebKind | NoKind

  /** `getContextForModel`'s record. */
  datatype Context = Context(kind: Kind, url: string, content: string, warning: string)

  const PdfWarning := "本地 PDF URL 无法被服务器直接访问，后端需要文件本身。"
  const FetchWarning := "网页内容抓取失败，将仅使用通用知识。"
  const EmptyWarning := "左侧未加载任何内容。"

  /** The mark by which a fetched text is recognised as an error report. */
  const ErrorMark := "❌"

  /** `getContextForModel`: a PDF, the fetched page, or nothing, and a
      warning whenever there is no usable text. */
  function ContextFor(viewMode: ViewMode, pdfUrl: string, fetched: string, inputUrl: string): (c: Context)
    ensures c.kind == PdfKind <==> viewMode == PdfMode && pdfUrl != ""
    ensures c.kind == WebKind <==> viewMode == FetchedMode && fetched != "" && inputUrl != ""
    ensures c.kind != NoKind <==> c.url != ""
    ensures c.warning == "" <==> c.content != ""
    ensures c.content != "" ==> c.kind == WebKind && c.content == fetched && !Contains(fetched, ErrorMark)
    ensures c.kind == WebKind && !Contains(fetched, ErrorMark) ==> c.content == fetched
  {
    if viewMode == PdfMode && pdfUrl != "" then
      Context(PdfKind, pdfUrl, "", PdfWarning)
    else if viewMode == FetchedMode && fetched != "" && inputUrl != "" then
      var isError := Contains(fetched, ErrorMark);
      Context(WebKind, inputUrl, if isError then "" else fetched, if isError then FetchWarning else "")
    else
      Context(NoKind, "", "", EmptyWarning)
  }

  // ---------------------------------------------------------------- the prompt

  const Limit := 1000
  const CutMark := "... (内容已截断)"

  /** The part of the content quoted to the model: at most 1000 characters,
      with a mark when something was cut. */
  function Snippet(content: string): (r: string)
    ensures |content| <= Limit ==> r == content
    ensures |content| > Limit ==> |r| == Limit + |CutMark| && StartsWith(r, content[..Limit]) && EndsWith(r, CutMark)
    ensures |r| <= Limit + |CutMark|
  {
    if |content| > Limit then content[..Limit] + CutMark else content
  }

  const QuoteHead := "请参考以下由代理抓取的内容 (URL: "
  const QuoteOpen := ") 进行回复：\n\n--- 内容片段开始 ---\n"
  const QuoteClose := "\n--- 内容片段结束 ---\n"
  const PdfNoteHead := "请注意，以下是一个本地 PDF 文件 (URL: "
  const PdfNoteTail := ")。请假设您已获取到 PDF 内容并进行回复。"
  const SummaryInstruction := "请用中文总结提供的文档内容（控制在300字以内）。请务必使用结构化的 Markdown 格式输出，例如：列表、加粗、二级标题，以及如果内容包含数据，请使用 Markdown 表格呈现。"
  const AskHead := "请根据提供的上下文回答用户问题："
  const AskTail := "。请使用结构化的 Markdown 格式输出，包括列表、加粗、和表格（如果适用）。"
  const WarnHead := "警告：内容提取失败（"
  const WarnMiddle := "）。用户问题是："
  const WarnTail := "。请仅依靠通用知识回答，并使用 Markdown 格式。"

  /** The page text quoted to the model, with the address it came from. */
  function Quote(url: string, content: string): string {
    QuoteHead + url + QuoteOpen + Snippet(content) + QuoteClose
  }

  /** What the prompt says about the page before the instruction. */
  function ContextInfo(ctx: Context): string {
    if ctx.kind == NoKind then ""
    else if ctx.content != "" then Quote(ctx.url, ctx.content)
    else if ctx.kind == PdfKind then PdfNoteHead + ctx.url + PdfNoteTail
    else ""
  }

  function Instruction(userMsg: string, isSummary: bool): string {
    if isSummary then SummaryInstruction else AskHead + userMsg + AskTail
  }

  /** The prompt used when the page gave nothing usable. */
  function GeneralPrompt(userMsg: string, warning: string): string {
    WarnHead + warning + WarnMiddle + userMsg + WarnTail
  }

  /** `getModelPrompt`. */
  function ModelPrompt(userMsg: string, ctx: Context, isSummary: bool): (p: string)
    ensures ctx.warning != "" ==> p == GeneralPrompt(userMsg, ctx.warning)
    ensures ctx.warning == "" ==> EndsWith(p, "\n\n" + Instruction(userMsg, isSummary))
  {
    if ctx.warning != "" then GeneralPrompt(userMsg, ctx.warning)
    else
      var info := ContextInfo(ctx);
      var tail := "\n\n" + Instruction(userMsg, isSummary);
      assert (info + tail)[|info + tail| - |tail|..] == tail;
      info + tail
  }

  /** A PDF or an empty pane never leads to the quoted-content prompt: both
      carry a warning, which replaces the whole prompt. */
  lemma NoQuoteWithoutPage(viewMode: ViewMode, pdfUrl: string, fetched: string, inputUrl: string,
                           userMsg: string, isSummary: bool)
    requires ContextFor(viewMode, pdfUrl, fetched, inputUrl).kind != WebKind
    ensures var ctx := ContextFor(viewMode, pdfUrl, fetched, inputUrl);
      ModelPrompt(userMsg, ctx, isSummary) == GeneralPrompt(userMsg, ctx.warning)
  {
  }

  /** A fetched page that is not an error report is quoted, cut to the
      snippet, with the address it came from. */
  lemma PageQuoted(fetched: string, inputUrl: string, userMsg: string, isSummary: bool)
    requires fetched != "" && inputUrl != "" && !Contains(fetched, ErrorMark)
    ensures ModelPrompt(userMsg, ContextFor(FetchedMode, "", fetched, inputUrl), isSummary)
         == Quote(inputUrl, fetched) + ("\n\n" + Instruction(userMsg, isSummary))
  {
    var ctx := ContextFor(FetchedMode, "", fetched, inputUrl);
    assert ctx == Context(WebKind, inputUrl, fetched, "");
  }

  /** A fetched text holding the error mark anywhere, even inside a page that
      loaded, counts as a failed fetch and is not sent to the model. */
  lemma MarkedPageWithheld(before: string, after: string, inputUrl: string, userMsg: string, isSummary: bool)
    requires inputUrl != ""
    ensures var ctx := ContextFor(FetchedMode, "", before + ErrorMark + after, inputUrl);
      && ctx.content == "" && ctx.warning == FetchWarning
      && ModelPrompt(userMsg, ctx, isSummary) == GeneralPrompt(userMsg, FetchWarning)
  {
    var s := before + ErrorMark + after;
    assert s[|before|..|before| + |ErrorMark|] == ErrorMark;
    ContainsAt(s, ErrorMark, |before|);
  }

  // ---------------------------------------------------------------- the summary guard

  const SummaryRefusal := "## 智能总结\n\n**内容提取失败或内容为空。**\n\n原因："

  /** What pressing the summary button does before any request. */
  datatype SummaryStep =
    | Busy                      // a summary is already being made
    | Refused(summary: string)  // nothing usable on the left: shown at once
    | Ask(prompt: string)       // the model is asked with this prompt

  /** `summarizeContent` up to the request. */
  function SummaryFor(isSummarizing: bool, ctx: Context): (r: SummaryStep)
    ensures r.Busy? <==> isSummarizing
    ensures r.Ask? <==> !isSummarizing && ctx.kind != NoKind && ctx.warning == ""
    ensures r.Ask? ==> r.prompt == ModelPrompt("总结", ctx, true)
    ensures r.Refused? ==> r.summary == SummaryRefusal + (if ctx.warning != "" then ctx.warning else EmptyWarning)
  {
    if isSummarizing then Busy
    else if ctx.kind == NoKind || ctx.warning != "" then
      Refused(SummaryRefusal + (if ctx.warning != "" then ctx.warning else EmptyWarning))
    else Ask(ModelPrompt("总结", ctx, true))
  }

  /** The model is asked for a summary only with page text in the prompt:
      the context's content is non-empty and quoted. */
  lemma SummaryQuotesPage(viewMode: ViewMode, pdfUrl: string, fetched: string, inputUrl: string)
    requires SummaryFor(false, ContextFor(viewMode, pdfUrl, fetched, inputUrl)).Ask?
    ensures var ctx := ContextFor(viewMode, pdfUrl, fetched, inputUrl);
      && ctx.kind == WebKind && ctx.content == fetched
      && SummaryFor(false, ctx).prompt
         == Quote(inputUrl, fetched) + ("\n\n" + SummaryInstruction)
  {
    var ctx := ContextFor(viewMode, pdfUrl, fetched, inputUrl);
    assert ctx == Context(WebKind, inputUrl, fetched, "");
    PageQuoted(fetched, inputUrl, "总结", true);
  }
}
