/** The capture route `GET /api/fetch-web?url=...`: the address is given a
    scheme, the rendered page is parsed, the blacklisted elements are removed,
    the main content is chosen, its descendants are cleaned in place, and the
    result is wrapped in a fixed HTML page; failures become a Markdown error
    document. Loading the page (the headless browser), serialising a forest
    (`.html()`), matching a selector and resolving a relative URL are
    parameters. */
module Capture {
  import opened Wrappers
  import opened Strings
  import opened Attributes
  import opened Dom
  import opened Sanitize
  import opened Elements

  // ---------------------------------------------------------------- constants

  /** The blacklist, in the order it is applied (`noscript` is listed twice). */
  const RemoveSelectors: seq<string> := [
    "script", "style", "noscript", "svg", "canvas",
    "header", "footer", "nav", "aside", "form",
    ".ad", ".ads", ".advert", ".banner", ".cookie", ".popup", ".modal",
    "[class*=\"ad\"]", "[class*=\"cookie\"]", "[class*=\"popup\"]", "[id*=\"ad\"]",
    "iframe", "meta", "link[  as=\"style\"]", "link[rel=\"preload\"]",
    "noscript", "template", "symbol", "use"
  ]

  /** The main-content candidates, in order of preference. */
  const MainSelectors: seq<string> := [
    "article",
    "main",
    "[role=\"main\"]",
    "#content", ".content",
    ".post", ".entry", ".article",
    ".markdown-body", ".readme",
    "div[class*=\"content\"]", "div[id*=\"content\"]"
  ]

  /** A candidate qualifies with strictly more trimmed characters than this. */
  const MinMainText := 200

  const EmptyBody := "<p>内容为空或已被反爬机制屏蔽。</p>"
  const DefaultTitle := "网页内容"
  const MissingUrlContent := "## ❌ 缺少 URL 参数"
  const UnknownError := "未知错误"

  /** The page template around the title and the body. */
  const PageHead: string :=
    "<!DOCTYPE html>\n"
    + "<html lang=\"zh\">\n"
    + "<head>\n"
    + "  <meta charset=\"utf-8\">\n"
    + "  <title>"

  const PageStyleOpen: string :=
    "</title>\n"
    + "  <meta name=\"viewport\" content=\"width=device-width, initial-scale=1\">\n"
    + "  <style>\n"

  /** The isolation stylesheet the page embeds. */
  const IsolationCss: string :=
    "    /* 终极隔离 CSS —— 任何网站都翻不了天 */\n"
    + "    html, body { \n"
    + "      margin:0 !important; padding:20px !important; \n"
    + "      font-family: -apple-system, BlinkMacSystemFont, \"Segoe UI\", Roboto, sans-serif !important;\n"
    + "      line-height: 1.6 !important; color: #1f2937 !important;\n"
    + "      background: white !important;\n"
    + "    }\n"
    + "    * { \n"
    + "      all: unset !important; \n"
    + "      box-sizing: border-box !important; \n"
    + "      max-width: 100% !important; \n"
    + "      word-wrap: break-word !important;\n"
    + "      display: block !important;\n"
    + "    }\n"
    + "    div, article, section, main, p, li, h1,h2,h3,h4,h5,h6 { display: block !important; }\n"
    + "    a { color: #0066cc !important; text-decoration: underline !important; cursor: pointer; }\n"
    + "    img { max-width: 100% !important; height: auto !important; display: block !important; border-radius: 8px; }\n"
    + "    table, tr, td, th { \n"
    + "      display: table !important; width: 100% !important; \n"
    + "      border-collapse: collapse; border: 1px solid #e5e7eb !important;\n"
    + "      padding: 8px !important;\n"
    + "    }\n"
    + "    pre, code { \n"
    + "      background: #f3f4f6 !important; padding: 12px !important; \n"
    + "      border-radius: 8px !important; overflow-x: auto !important;\n"
    + "      white-space: pre-wrap !important;\n"
    + "    }\n"
    + "    blockquote { border-left: 4px solid #ddd !important; padding-left: 16px !important; margin: 16px 0 !important; }\n"

  const PageStyleClose: string :=
    "  </style>\n"
    + "</head>\n"
    + "<body>\n"
    + "  "

  const PageTail: string :=
    "\n"
    + "  <!-- Powered by xAI Grok Web Fetcher -->\n"
    + "</body>\n"
    + "</html>"

  /** The Markdown error document around the address and the message. */
  const ErrorHead: string :=
    "## ❌ 网页加载失败\n"
    + "\n"
    + "**URL:** `"

  const ErrorMiddle: string :=
    "`\n"
    + "\n"
    + "**错误:** "

  const ErrorTail: string :=
    "\n"
    + "\n"
    + "**可能原因：**\n"
    + "- 目标网站启用强反爬（Cloudflare、Akamai、DDoS 保护）\n"
    + "- 服务器网络被限制出站访问\n"
    + "- Puppeteer 在当前环境启动失败（Vercel/Netlify 不支持）\n"
    + "\n"
    + "**建议：**\n"
    + "- 尝试一个简单网站测试（如 http://example.com）\n"
    + "- 或部署到支持无头浏览器的服务器（Railway、Fly.io、AWS EC2 等）"


  // ---------------------------------------------------------------- the address

  /** The address the route loads: kept when it starts with `http://` or
      `https://` in any letter case, otherwise put behind `https://`. The
      result always has the scheme, ends with the input, and equals it
      exactly when the input had the scheme already (so normalising twice
      changes nothing). */
  function NormalizeUrl(u: string): (r: string)
    ensures HasHttpScheme(r) && EndsWith(r, u)
    ensures r == u <==> HasHttpScheme(u)
  {
    if HasHttpScheme(u) then u
    else
      HttpsScheme(u);
      "https://" + u
  }

  // ---------------------------------------------------------------- the main content

  /** `$(sel).first()` is the main content: there is a match and its
      trimmed `.text()` is longer than 200 characters. */
  predicate Qualifies(doc: seq<Tree>, m: Matcher, sel: string) {
    var c := FirstIn(doc, m, sel);
    c.Some? && |Trim(TextOf(AtIn(doc, c.value)))| > MinMainText
  }

  /** The selection `$main`, once the selectors before `sels[i]` have not
      qualified (see `MainIsFirstQualifying` and `MainFallsBack`). */
  function MainFrom(doc: seq<Tree>, m: Matcher, sels: seq<string>, i: nat): (r: Option<Path>)
    requires i <= |sels|
    ensures r.Some? ==> ValidIn(doc, r.value) && AtIn(doc, r.value).Element?
    decreases |sels| - i
  {
    if i == |sels| then FirstIn(doc, m, "body")
    else if Qualifies(doc, m, sels[i]) then FirstIn(doc, m, sels[i])
    else MainFrom(doc, m, sels, i + 1)
  }

  /** The first selector, from `i` on, that qualifies gives `$main`. */
  lemma {:induction false} MainIsFirstQualifying(doc: seq<Tree>, m: Matcher, sels: seq<string>, i: nat, k: nat)
    requires i <= k < |sels| && Qualifies(doc, m, sels[k])
    requires forall j :: i <= j < k ==> !Qualifies(doc, m, sels[j])
    ensures MainFrom(doc, m, sels, i) == FirstIn(doc, m, sels[k])
    decreases k - i
  {
    if i < k {
      MainIsFirstQualifying(doc, m, sels, i + 1, k);
    }
  }

  /** When no selector from `i` on qualifies, `$main` is the first `body`. */
  lemma {:induction false} MainFallsBack(doc: seq<Tree>, m: Matcher, sels: seq<string>, i: nat)
    requires i <= |sels|
    requires forall j :: i <= j < |sels| ==> !Qualifies(doc, m, sels[j])
    ensures MainFrom(doc, m, sels, i) == FirstIn(doc, m, "body")
    decreases |sels| - i
  {
    if i < |sels| {
      assert !Qualifies(doc, m, sels[i]);
      MainFallsBack(doc, m, sels, i + 1);
    }
  }

  /** `let $main = $('body')`, then the loop over the candidates that stops
      at the first one that qualifies. */
  method SelectMain(doc: seq<Tree>, m: Matcher, mains: seq<string>) returns (main: Option<Path>)
    ensures main == MainFrom(doc, m, mains, 0)
  {
    main := FirstIn(doc, m, "body");
    var i := 0;
    while i < |mains|
      invariant 0 <= i <= |mains|
      invariant MainFrom(doc, m, mains, i) == MainFrom(doc, m, mains, 0)
      invariant main == FirstIn(doc, m, "body")
    {
      var candidate := FirstIn(doc, m, mains[i]);
      if candidate.Some? && |Trim(TextOf(AtIn(doc, candidate.value)))| > MinMainText {
        main := candidate;
        break;
      }
      i := i + 1;
    }
  }

  // ---------------------------------------------------------------- the page

  /** `.html()`: the markup of a forest, supplied by the serialiser. */
  type Serializer = seq<Tree> -> string

  /** What a capture works with: the blacklist, the main-content candidates,
      the selector engine, the URL resolver and the serialiser. */
  datatype Setup = Setup(removes: seq<string>, mains: seq<string>, css: string, m: Matcher, resolve: Resolver, html: Serializer)

  /** The document after the blacklist pass. */
  function Pruned(doc: seq<Tree>, s: Setup): seq<Tree> {
    PruneAll(doc, s.m, s.removes)
  }

  /** The position of `$main` in the pruned document. */
  function MainOf(doc: seq<Tree>, s: Setup): (r: Option<Path>)
    ensures r.Some? ==> ValidIn(Pruned(doc, s), r.value) && AtIn(Pruned(doc, s), r.value).Element?
  {
    MainFrom(Pruned(doc, s), s.m, s.mains, 0)
  }

  /** The document after `$main.children().each(deepClean)`. */
  function Cleaned(doc: seq<Tree>, s: Setup, base: string): seq<Tree> {
    var pruned := Pruned(doc, s);
    match MainOf(doc, s)
    case None => pruned
    case Some(p) => ReplaceIn(pruned, p, CleanMain(AtIn(pruned, p), base, s.resolve))
  }

  /** The children of the cleaned `$main`, which `.html()` serialises; None
      when `$main` selects nothing. */
  function MainForest(doc: seq<Tree>, s: Setup, base: string): Option<seq<Tree>> {
    match MainOf(doc, s)
    case None => None
    case Some(p) => Some(CleanIn(AtIn(Pruned(doc, s), p).children, base, s.resolve))
  }

  /** The page template with a title and a body. */
  function Document(title: string, css: string, body: string): string {
    PageHead + title + PageStyleOpen + css + PageStyleClose + body + PageTail
  }

  /** `$('title').text() || '网页内容'`, on the cleaned document. */
  function TitleOf(doc: seq<Tree>, s: Setup, base: string): (r: string)
    ensures r != []
  {
    var t := MatchText(Cleaned(doc, s, base), s.m, "title");
    if t == "" then DefaultTitle else t
  }

  /** `$main.html() || '<p>...</p>'`: never empty, the placeholder when
      `$main` selects nothing, and otherwise the markup of the cleaned
      children unless that is empty. */
  function BodyOf(doc: seq<Tree>, s: Setup, base: string): (r: string)
    ensures r != []
    ensures MainForest(doc, s, base).None? ==> r == EmptyBody
    ensures MainForest(doc, s, base).Some? ==>
      r == (if s.html(MainForest(doc, s, base).value) == "" then EmptyBody
            else s.html(MainForest(doc, s, base).value))
  {
    var inner := match MainForest(doc, s, base) case None => "" case Some(f) => s.html(f);
    if inner == "" then EmptyBody else inner
  }

  /** The captured page. */
  function Page(doc: seq<Tree>, s: Setup, base: string): string {
    Document(TitleOf(doc, s, base), s.css, BodyOf(doc, s, base))
  }

  /** Steps 1 to 4 of the route on a loaded document: the nodes are built,
      the blacklist pass and the cleaning walk update them in place, and
      the page is assembled from what they then hold. */
  method Capture(doc: seq<Tree>, s: Setup, base: string) returns (content: string)
    requires WellFormedIn(doc)
    ensures content == Page(doc, s, base)
  {
    var root := LoadPruned(doc, s);
    var main := SelectMain(root.Snapshot().children, s.m, s.mains);
    var body := CleanMainOf(root, doc, s, base, main);
    var title := MatchText(root.Snapshot().children, s.m, "title");
    content := Document(if title == "" then DefaultTitle else title, s.css, body);
  }

  /** `cheerio.load`, then the blacklist pass. */
  method LoadPruned(doc: seq<Tree>, s: Setup) returns (root: Node)
    requires WellFormedIn(doc)
    ensures fresh(root.Repr) && root.Valid() && !root.isText
    ensures root.model == Element("", [], Pruned(doc, s))
  {
    root := Node.Build(Element("", [], doc));
    root.RemoveEach(s.m, s.removes);
  }

  /** `$main.children().each(deepClean)` in the document held by `root`,
      then `$main.html() || '<p>...</p>'`. */
  method CleanMainOf(root: Node, doc: seq<Tree>, s: Setup, base: string, main: Option<Path>) returns (body: string)
    requires root.Valid() && !root.isText && root.model == Element("", [], Pruned(doc, s))
    requires main == MainOf(doc, s)
    modifies root.Repr
    ensures root.Valid() && root.model == Element("", [], Cleaned(doc, s, base))
    ensures body == BodyOf(doc, s, base)
  {
    var inner := "";
    if main.Some? {
      var p := main.value;
      ghost var pruned := Pruned(doc, s);
      root.CleanAt(p, base, s.resolve);
      var cleaned := root.Snapshot().children;
      ReplaceInAtIn(pruned, p, CleanMain(AtIn(pruned, p), base, s.resolve));
      inner := s.html(AtIn(cleaned, p).children);
    }
    body := if inner == "" then EmptyBody else inner;
  }

  /** What the page's body is made from is clean: no element in it keeps a
      `style`, `on...` or `srcdoc` attribute, and when every URL the resolver
      produces passes the cleaning test, no attribute value in it mentions
      `javascript:` or starts with `data:`. */
  lemma MainForestSafe(doc: seq<Tree>, s: Setup, base: string)
    requires WellFormedIn(doc) && MainForest(doc, s, base).Some?
    ensures NamesSafeIn(MainForest(doc, s, base).value)
    ensures ResolvesSafely(s.resolve, base) ==> AttrsSafeIn(MainForest(doc, s, base).value)
  {
    var pruned := Pruned(doc, s);
    var p := MainOf(doc, s).value;
    PruneAllWellFormed(doc, s.m, s.removes);
    AtInWellFormed(pruned, p);
    CleanInSafe(AtIn(pruned, p).children, base, s.resolve);
  }

  /** The title and the body can be read back from the page, between the
      fixed parts of the template. */
  lemma DocumentSlots(title: string, css: string, body: string)
    ensures var r := Document(title, css, body);
      var b := |PageHead| + |title| + |PageStyleOpen| + |css| + |PageStyleClose|;
      && StartsWith(r, PageHead) && EndsWith(r, PageTail)
      && r[|PageHead|..|PageHead| + |title|] == title
      && r[b..|r| - |PageTail|] == body
  {
    var r := Document(title, css, body);
    var b := |PageHead| + |title| + |PageStyleOpen| + |css| + |PageStyleClose|;
    var front := PageHead + title + PageStyleOpen + css + PageStyleClose;
    assert r == front + body + PageTail;
    assert r[..|PageHead|] == PageHead;
    assert r[|PageHead|..|PageHead| + |title|] == title;
    assert r[b..|r| - |PageTail|] == body;
  }

  // ---------------------------------------------------------------- the route

  /** What loading the address gives: the parsed page, or the message of the
      error thrown while launching the browser, navigating or reading the
      page (the empty string standing for a missing message). */
  datatype Fetched = Loaded(doc: seq<Tree>) | Failed(message: string)

  /** The JSON response: its status, whether it has `error: true`, its
      `content` and its `url` field. */
  datatype Response = Response(status: int, error: bool, content: string, url: Option<string>)

  /** The Markdown error document for a failed load: it carries the error
      mark, the address and the message (or `未知错误` in its place). */
  function ErrorDocument(url: string, message: string): (r: string)
    ensures StartsWith(r, ErrorHead)
    ensures Contains(r, "❌")
    ensures Contains(r, url)
    ensures Contains(r, if message == "" then UnknownError else message)
  {
    var shown := if message == "" then UnknownError else message;
    Report(ErrorHead, url, ErrorMiddle, shown, ErrorTail);
    ErrorHead + url + ErrorMiddle + shown + ErrorTail
  }

  /** A report put together from a heading carrying the error mark, the
      address and the message keeps all three. */
  lemma Report(head: string, url: string, middle: string, shown: string, tail: string)
    requires head == ErrorHead
    ensures var r := head + url + middle + shown + tail;
      StartsWith(r, head) && Contains(r, "❌") && Contains(r, url) && Contains(r, shown)
  {
    ErrorMark();
    Slots(head, url, middle, shown, tail);
    ContainsInfix("", head, url + middle + shown + tail, "❌");
    assert "" + head + (url + middle + shown + tail) == head + url + middle + shown + tail;
    Opens(head, url, middle, shown, tail);
  }

  lemma ErrorMark()
    ensures Contains(ErrorHead, "❌")
  {
    ContainsAt(ErrorHead, "❌", 3);
  }

  /** Five strings put together open with the first. */
  lemma Opens(a: string, b: string, c: string, d: string, e: string)
    ensures StartsWith(a + b + c + d + e, a)
  {
    assert (a + b + c + d + e)[..|a|] == a;
  }

  /** The second and fourth of five strings are found in their concatenation. */
  lemma Slots(a: string, b: string, c: string, d: string, e: string)
    ensures Contains(a + b + c + d + e, b) && Contains(a + b + c + d + e, d)
  {
    ContainsSelf(b);
    ContainsSelf(d);
    ContainsInfix(a, b, c + d + e, b);
    assert a + b + (c + d + e) == a + b + c + d + e;
    ContainsInfix(a + b + c, d, e, d);
  }

  /** The route's answer to the query parameter `url` (None when absent). */
  function Respond(query: Option<string>, load: string -> Fetched, s: Setup): (r: Response)
    ensures r.status == 400 <==> query.None? || query.value == ""
    ensures r.error <==> r.status != 200
    ensures r.status == 400 ==> r.content == MissingUrlContent && r.url.None?
    ensures r.status != 400 ==> (load(NormalizeUrl(query.value)).Failed? <==> r.status == 500)
    ensures r.status == 200 ==> r.url == Some(NormalizeUrl(query.value)) && HasHttpScheme(r.url.value)
    ensures r.status == 500 ==> Contains(r.content, NormalizeUrl(query.value)) && r.url.None?
  {
    if query.None? || query.value == "" then Response(400, true, MissingUrlContent, None)
    else
      var url := NormalizeUrl(query.value);
      match load(url)
      case Failed(message) =>
        Response(500, true, ErrorDocument(url, message), None)
      case Loaded(doc) => Response(200, false, Page(doc, s, url), Some(url))
  }

  /** `GET(request)`. */
  method Get(query: Option<string>, load: string -> Fetched, m: Matcher, resolve: Resolver, html: Serializer)
      returns (r: Response)
    requires forall u :: load(u).Loaded? ==> WellFormedIn(load(u).doc)
    ensures r == Respond(query, load, Setup(RemoveSelectors, MainSelectors, IsolationCss, m, resolve, html))
  {
    if query.None? || query.value == "" {
      return Response(400, true, MissingUrlContent, None);
    }
    var url := NormalizeUrl(query.value);
    var fetched := load(url);
    match fetched {
      case Failed(message) =>
        r := Response(500, true, ErrorDocument(url, message), None);
      case Loaded(doc) =>
        var content := Capture(doc, Setup(RemoveSelectors, MainSelectors, IsolationCss, m, resolve, html), url);
        r := Response(200, false, content, Some(url));
    }
  }
}
