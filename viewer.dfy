/** The reader page's left pane: the open PDF or fetched page, the address
    bar, and the steps that change them (upload, navigation, Enter in the
    address bar, a link clicked inside a rendered page). */
module Viewer {
  import opened Wrappers
  import opened Strings
  import opened Prompt

  /** The file chosen in the upload dialog: its name and MIME type. */
  datatype File = File(name: string, mime: string)

  /** A `message` event's data, with a missing field read as "". */
  datatype Message = Message(kind: string, url: string)

  /** The one message the page acts on: a link clicked inside a rendered page. */
  predicate IsNavigation(m: Message) {
    m.kind == "navigate" && m.url != ""
  }

  /** The placeholder shown while the proxy fetches a page. */
  function Connecting(url: string): string {
    "## 正在连接代理服务...\n\n### 网页 URL：" + url + "\n\n请等待后端代理服务抓取和处理内容..."
  }

  /** What the page's request to the capture route comes to: no usable
      answer (the request failed, or its body was not JSON), with the
      error's message when it is an `Error`; or an answer with its status
      and the `error`, `content` and `message` fields of its JSON body, a
      missing field read as false or "". */
  datatype ProxyAnswer =
    | Unanswered(reason: Option<string>)
    | Answered(status: int, error: bool, content: string, message: string)

  /** `response.ok`: a status from 200 to 299. */
  predicate Ok(status: int) {
    200 <= status <= 299
  }

  /** The answer failed: nothing usable arrived, or its status is not ok. */
  predicate FailedAnswer(answer: ProxyAnswer) {
    answer.Unanswered? || !Ok(answer.status)
  }

  const StatusFailure := "API 代理调用失败，状态码: "
  const UnknownConnectionError := "未知连接错误"
  const ReportHead := "## ❌ 网页加载失败\n\n**请求的 URL：** `"
  const ReportMiddle := "`\n\n**错误信息：** "
  const ReportTail :=
    "\n\n**请检查：**\n1. Next.js 后端服务（API Route）是否已运行。\n2. **网络配置：** 运行 Next.js 的服务器是否被防火墙阻止了外部网络访问。\n3. **反爬虫：** 对于 Bing 或 Apple，您的后端代理需要使用 **无头浏览器** (如 Puppeteer) 而非简单的 `fetch` 来绕过它们的反爬虫。请尝试一个更简单的网站，如 `http://example.com` 进行测试。"

  /** The decimal digits of `n`, as a template literal writes a number. */
  function Decimal(n: nat): (r: string)
    ensures r != [] && forall i :: 0 <= i < |r| ==> '0' <= r[i] <= '9'
    decreases n
  {
    (if n < 10 then "" else Decimal(n / 10)) + [(48 + n % 10) as char]
  }

  /** A number as a template literal writes it. */
  function NumberText(n: int): string {
    if n < 0 then "-" + Decimal(-n) else Decimal(n)
  }

  /** The report the page writes itself when a fetch fails. */
  function LoadFailedReport(url: string, message: string): string {
    ReportHead + (url + (ReportMiddle + (message + ReportTail)))
  }

  /** `fetchWebContent`'s choice of the text finally shown: its own report
      on a failed request or a status that is not ok (the thrown message
      names the status); otherwise the body's `content`, or its `message`
      when `error` is set and `content` is empty. */
  function Shown(url: string, answer: ProxyAnswer): (r: string)
    ensures FailedAnswer(answer) ==> r != [] && r[0] == '#' && Contains(r, ErrorMark) && Contains(r, url)
    ensures answer.Unanswered? ==> r == LoadFailedReport(url, answer.reason.GetOr(UnknownConnectionError))
    ensures answer.Answered? && !Ok(answer.status) ==> r == LoadFailedReport(url, StatusFailure + NumberText(answer.status))
    ensures !FailedAnswer(answer) && !answer.error ==> r == answer.content
    ensures !FailedAnswer(answer) && answer.error ==>
      r == if answer.content != "" then answer.content else answer.message
  {
    var text :=
      if answer.Unanswered? then LoadFailedReport(url, answer.reason.GetOr(UnknownConnectionError))
      else if !Ok(answer.status) then LoadFailedReport(url, StatusFailure + NumberText(answer.status))
      else if answer.error && answer.content == "" then answer.message
      else answer.content;
    if FailedAnswer(answer) then
      var message := if answer.Unanswered? then answer.reason.GetOr(UnknownConnectionError)
                     else StatusFailure + NumberText(answer.status);
      ReportFacts(url, message);
      text
    else text
  }

  /** The page's report opens with a heading, carries the error mark and
      names the address. */
  lemma ReportFacts(url: string, message: string)
    ensures var r := LoadFailedReport(url, message);
      r != [] && r[0] == '#' && Contains(r, ErrorMark) && Contains(r, url)
  {
    var r := LoadFailedReport(url, message);
    assert ReportHead[..4] == "## ❌";
    assert r[..|ReportHead|] == ReportHead;
    assert r[3..4] == ErrorMark;
    ContainsAt(r, ErrorMark, 3);
    assert r[|ReportHead|..|ReportHead| + |url|] == url;
    ContainsAt(r, url, |ReportHead|);
  }

  class Pane {
    var pdfUrl: string
    var fetchedContent: string
    var inputUrl: string
    var viewMode: ViewMode
    var isLoading: bool

    constructor(initialPdfUrl: string)
      ensures pdfUrl == initialPdfUrl && fetchedContent == "" && inputUrl == ""
      ensures viewMode == NoMode && !isLoading
    {
      pdfUrl := initialPdfUrl;
      fetchedContent := "";
      inputUrl := "";
      viewMode := NoMode;
      isLoading := false;
    }

    /** What the model is told about this pane. */
    function Context(): Context
      reads this
    {
      ContextFor(viewMode, pdfUrl, fetchedContent, inputUrl)
    }

    /** `handleUpload`: only a PDF is taken; it is shown from its object URL,
        the fetched page is dropped and the address bar shows the local-file
        label. */
    method Upload(file: Option<File>, objectUrl: string)
      modifies this
      ensures if file.Some? && file.value.mime == "application/pdf" then
          && pdfUrl == objectUrl && fetchedContent == "" && viewMode == PdfMode
          && inputUrl == LocalPrefix + " " + file.value.name && isLoading == old(isLoading)
        else unchanged(this)
    {
      if file.Some? && file.value.mime == "application/pdf" {
        pdfUrl := objectUrl;
        fetchedContent := "";
        viewMode := PdfMode;
        inputUrl := LocalPrefix + " " + file.value.name;
      }
    }

    /** `fetchWebContent`: the placeholder is shown while the request runs,
        then the text `Shown` picks for the answer. */
    method Fetch(url: string, answer: ProxyAnswer)
      modifies this`isLoading, this`fetchedContent, this`viewMode
      ensures fetchedContent == Shown(url, answer) && viewMode == FetchedMode && !isLoading
    {
      isLoading := true;
      fetchedContent := Connecting(url);
      viewMode := FetchedMode;
      if answer.Unanswered? {
        fetchedContent := LoadFailedReport(url, answer.reason.GetOr(UnknownConnectionError));
      } else if !Ok(answer.status) {
        fetchedContent := LoadFailedReport(url, StatusFailure + NumberText(answer.status));
      } else if answer.error {
        fetchedContent := if answer.content != "" then answer.content else answer.message;
      } else {
        fetchedContent := answer.content;
      }
      isLoading := false;
    }

    /** `navigateToUrl`: an empty URL does nothing; a PDF URL is shown as a
        PDF and drops the fetched page; any other URL clears the PDF and is
        fetched through the proxy (`ask` gives the proxy's answer).
        The address bar then shows the URL. */
    method NavigateTo(url: string, ask: string -> ProxyAnswer)
      modifies this
      ensures url == "" ==> unchanged(this)
      ensures url != "" && IsPdfUrl(url) ==>
        && pdfUrl == url && fetchedContent == "" && viewMode == PdfMode
        && inputUrl == url && isLoading == old(isLoading)
      ensures url != "" && !IsPdfUrl(url) ==>
        && pdfUrl == "" && fetchedContent == Shown(url, ask(url)) && viewMode == FetchedMode
        && inputUrl == url && !isLoading
    {
      if url == "" {
        return;
      }
      if IsPdfUrl(url) {
        pdfUrl := url;
        fetchedContent := "";
        viewMode := PdfMode;
      } else {
        pdfUrl := "";
        Fetch(url, ask(url));
      }
      inputUrl := url;
    }

    /** `handleUrl`: Enter in the address bar. */
    method Enter(encode: string -> string, valid: string -> bool, ask: string -> ProxyAnswer)
      returns (outcome: Address)
      modifies this
      ensures outcome == AddressFor(old(inputUrl), encode, valid)
      ensures !outcome.Go? ==> unchanged(this)
      ensures outcome.Go? ==> inputUrl == outcome.url && HasHttpScheme(inputUrl)
      ensures outcome.Go? && IsPdfUrl(outcome.url) ==>
        pdfUrl == outcome.url && fetchedContent == "" && viewMode == PdfMode && isLoading == old(isLoading)
      ensures outcome.Go? && !IsPdfUrl(outcome.url) ==>
        pdfUrl == "" && fetchedContent == Shown(outcome.url, ask(outcome.url)) && viewMode == FetchedMode && !isLoading
    {
      outcome := AddressFor(inputUrl, encode, valid);
      if outcome.Go? {
        NavigateTo(outcome.url, ask);
      }
    }

    /** The `message` listener: only a navigation message with a URL opens it. */
    method Receive(m: Message, ask: string -> ProxyAnswer)
      modifies this
      ensures !IsNavigation(m) ==> unchanged(this)
      ensures IsNavigation(m) ==> inputUrl == m.url
      ensures IsNavigation(m) && IsPdfUrl(m.url) ==>
        pdfUrl == m.url && fetchedContent == "" && viewMode == PdfMode && isLoading == old(isLoading)
      ensures IsNavigation(m) && !IsPdfUrl(m.url) ==>
        pdfUrl == "" && fetchedContent == Shown(m.url, ask(m.url)) && viewMode == FetchedMode && !isLoading
    {
      if m.kind == "navigate" && m.url != "" {
        NavigateTo(m.url, ask);
      }
    }
  }

  /** After an upload the model is told about the PDF, with its warning and
      no text, and Enter in the address bar does nothing. */
  lemma UploadedPdfContext(name: string, objectUrl: string,
                           encode: string -> string, valid: string -> bool)
    requires objectUrl != ""
    ensures var ctx := ContextFor(PdfMode, objectUrl, "", LocalPrefix + " " + name);
      && ctx == Context(PdfKind, objectUrl, "", PdfWarning)
      && AddressFor(LocalPrefix + " " + name, encode, valid) == Ignored
  {
    LocalLabelIgnored(name, encode, valid);
  }
}
