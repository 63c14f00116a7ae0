/** How the reader page treats what the capture route sends back: a built
    page is shown as isolated HTML, and every error report is shown as
    Markdown and kept away from the model. */
module Reader {
  import opened Wrappers
  import opened Strings
  import Capture
  import Dom
  import opened Prompt
  import opened Viewer

  /** Every page the route builds starts with `<`, so the pane shows it as
      an HTML page. */
  lemma PageShownAsHtml(title: string, css: string, body: string)
    ensures IsHtml(Capture.Document(title, css, body))
  {
    var r := Capture.Document(title, css, body);
    Capture.DocumentSlots(title, css, body);
    assert r[0] == Capture.PageHead[0] == '<';
    HtmlWhenOpening(r);
  }

  /** A text whose first character is `<` is shown as HTML. */
  lemma HtmlWhenOpening(content: string)
    requires content != [] && content[0] == '<'
    ensures IsHtml(content)
  {
  }

  /** What the page receives from the route: the status and the JSON body,
      which never has a `message` field. */
  function Relay(r: Capture.Response): ProxyAnswer {
    Answered(r.status, r.error, r.content, "")
  }

  /** A page that loaded comes back with an ok status and no error flag, so
      the pane shows the route's page itself, as HTML. */
  lemma PageShown(query: Option<string>, load: string -> Capture.Fetched, s: Capture.Setup, url: string)
    requires !Capture.Respond(query, load, s).error
    ensures var r := Capture.Respond(query, load, s);
      && Ok(r.status) && Shown(url, Relay(r)) == r.content && IsHtml(r.content)
  {
    var r := Capture.Respond(query, load, s);
    var u := Capture.NormalizeUrl(query.value);
    var doc := load(u).doc;
    assert r.content == Capture.Page(doc, s, u);
    PageIsHtml(doc, s, u);
    OkShownAsIs(url, r.status, r.content);
  }

  lemma PageIsHtml(doc: seq<Dom.Tree>, s: Capture.Setup, u: string)
    ensures IsHtml(Capture.Page(doc, s, u))
  {
    PageShownAsHtml(Capture.TitleOf(doc, s, u), s.css, Capture.BodyOf(doc, s, u));
  }

  /** An ok answer without the error flag is shown as it came. */
  lemma OkShownAsIs(url: string, status: int, content: string)
    requires Ok(status)
    ensures Shown(url, Answered(status, false, content, "")) == content
  {
  }

  /** Every error response of the route (a missing address, 400, or a page
      that failed to load, 500) has a status that is not ok. So the page
      never shows the route's report, and never reaches its `data.error`
      branch: it shows its own report naming the status, which is Markdown,
      and the model is told the fetch failed instead of being given it. */
  lemma ErrorsWithheld(query: Option<string>, load: string -> Capture.Fetched, s: Capture.Setup, url: string)
    requires url != ""
    requires Capture.Respond(query, load, s).error
    ensures var r := Capture.Respond(query, load, s);
      var shown := Shown(url, Relay(r));
      && (r.status == 400 || r.status == 500) && !Ok(r.status)
      && shown == LoadFailedReport(url, StatusFailure + NumberText(r.status))
      && shown != r.content
      && !IsHtml(shown)
      && ContextFor(FetchedMode, "", shown, url) == Context(WebKind, url, "", FetchWarning)
  {
    var r := Capture.Respond(query, load, s);
    if r.status != 400 {
      var u := Capture.NormalizeUrl(query.value);
      assert r.content == Capture.ErrorDocument(u, load(u).message);
    }
    ReportReplaces(url, r.status, r.content);
  }

  /** An answer whose status is not ok, carrying either of the route's two
      reports, is replaced by the page's own report, which is withheld. */
  lemma ReportReplaces(url: string, status: int, content: string)
    requires url != "" && !Ok(status)
    requires content == Capture.MissingUrlContent || StartsWith(content, Capture.ErrorHead)
    ensures var shown := Shown(url, Answered(status, true, content, ""));
      && shown == LoadFailedReport(url, StatusFailure + NumberText(status))
      && shown != content
      && !IsHtml(shown)
      && ContextFor(FetchedMode, "", shown, url) == Context(WebKind, url, "", FetchWarning)
  {
    var shown := Shown(url, Answered(status, true, content, ""));
    assert shown[..|ReportHead|] == ReportHead;
    if content == Capture.MissingUrlContent {
      assert shown[5] == ReportHead[5] != Capture.MissingUrlContent[5];
    } else {
      assert content[..|Capture.ErrorHead|] == Capture.ErrorHead;
      assert shown[15] == ReportHead[15] != Capture.ErrorHead[15] == content[15];
    }
    ReportWithheld(shown, url);
  }

  /** A Markdown report opening with a heading and carrying the error mark
      is not HTML and is withheld from the model. */
  lemma ReportWithheld(content: string, inputUrl: string)
    requires inputUrl != ""
    requires content != [] && content[0] == '#'
    requires Contains(content, ErrorMark)
    ensures !IsHtml(content)
    ensures ContextFor(FetchedMode, "", content, inputUrl) == Context(WebKind, inputUrl, "", FetchWarning)
  {
    assert !IsHtml(content) by {
      assert Trim(content)[0] == '#';
    }
  }
}
