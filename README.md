# Web reader: capture route and reading page

This project models, in Dafny, the two parts of the web reader that hold its logic.

1. **The capture route** `GET /api/fetch-web?url=…` (`app/api/fetch-web/route.ts`).
   - It checks and normalises the requested address.
   - It removes blacklisted elements from the rendered page.
   - It picks the main content by a priority list of selectors.
   - It cleans every descendant of that content in place (`deepClean`).
   - It wraps the result in a fixed, style-isolated HTML page, or answers with a Markdown error document.
2. **The reading page** (`app/earnings.tsx`).
   - The address bar and PDF-or-web routing.
   - The upload of a local PDF and the link messages sent from a rendered page.
   - The context the model is given and the prompt built from it.
   - The summary guard.
   - The line-framed streaming call to the local model server.
   - The chat transcript, with send and stop.

Modules, one file each:

- **Strings**: the JavaScript string operations used on both sides: `startsWith`, `endsWith`, `includes`, `trim`, ASCII lower-casing and the `/^https?:\/\//i` test.
- **Attributes**: an element's attributes as an ordered map.
- **Dom**: the page as a value, with:
  - paths and document order;
  - `$(sel).first()`, `.text()` and `$(sel).remove()`.
- **Sanitize**: what `deepClean` does, as functions on values, and the properties of the sanitiser.
- **Elements**: the page as mutable `Node` objects. It has:
  - the in-place blacklist pass (`RemoveEach`);
  - the in-place `deepClean` walk (`DeepClean`, `CleanAt`);
  - proofs that these methods match the value-level specification.
- **Capture**: the route itself. It has:
  - the normalisation;
  - the selection loop;
  - the page template and the error document;
  - `Respond` as a specification;
  - `Get` as the imperative route proved equal to it.
- **Framing**: `buffer.split('\n')` and the buffer carried from one read to the next.
- **Stream**: `callOllamaStream`.
  - `Fragments` is its specification.
  - `CallStream` is the read loop, proved equal to it.
- **Prompt**: the page's pure decisions:
  - the HTML test;
  - the address bar;
  - PDF routing;
  - the model context;
  - the prompt;
  - the summary guard.
- **Viewer**: class `Pane`, the left pane's state and the steps that change it.
- **Chat**: class `Session`, the transcript and the send/stop cycle.
- **Reader**: how the two sides fit together. A built page is shown as HTML. Every error response of the route has a status that is not ok, so the page shows its own report naming the status instead of the route's, and withholds that report from the model.

What the proofs establish, in the system's own terms:

- **Capture route:**
  - A missing address gives 400. Otherwise the address always carries an http(s) scheme, and normalising is idempotent.
  - The main content is the first match of the earliest qualifying selector, or else `body`.
  - After the blacklist pass no blacklisted selector matches anywhere.
  - No cleaned element keeps `style`, `on…` or `srcdoc`.
  - When the URL resolver only produces values the attribute test accepts, every cleaned attribute passes that test: no value it reads mentions `javascript:` or starts with `data:`. A boolean attribute (`open`, `hidden`, …) is read as its own name, so its stored value is never tested.
  - For anchors, a relative `href` is resolved or removed.
  - For images:
    - An image is dropped exactly when its relative `src` cannot be resolved.
    - Every surviving image loads lazily and has neither `srcset` nor `decoding`.
  - Cleaning is idempotent under two hypotheses on the resolver: resolving a resolved URL gives it back (it settles), and every resolved URL passes the attribute test (it resolves safely). A real URL parser settles but breaks the second hypothesis: it lower-cases the scheme, so `JavaScript:x` becomes `javascript:x`, which a second pass removes (see Findings).
  - The in-place walks compute exactly these value-level results.
- **Streaming:**
  - Chunk boundaries do not matter.
  - Blank lines are skipped.
  - Responses come out in arrival order.
  - A `done` record or a malformed line ends the stream.
  - An abort only ever truncates the output.
  - An unterminated last line is never parsed.
- **Chat:** a send adds exactly one turn whose answer is the concatenation of the streamed fragments.
- **Context:** a text containing `❌` is never sent to the model.

Calls into code the model cannot see are function-typed parameters:

- selector matching;
- `new URL(rel, base).href`;
- `.html()`;
- the headless browser's load;
- `JSON.parse`;
- `encodeURIComponent`;
- `new URL(url)` as a validity test;
- `URL.createObjectURL`;
- the reply of the model server.

## Model

| member | source | states |
|---|---|---|
| Strings.TrimStart | app/earnings.tsx:73 | removes the longest run of white space at the front: what is removed is blank and what remains does not start with white space |
| Strings.TrimEnd | app/earnings.tsx:73 | removes the longest run of white space at the back: what is removed is blank and what remains does not end with white space |
| Strings.Trim | app/earnings.tsx:73 | `trim()` is the text with a blank run removed from each end: it is a window of the text with only white space before and after it, empty exactly when the text is all white space, and otherwise neither starting nor ending with white space |
| Strings.Window | app/earnings.tsx:73 | removing a blank run from the front and then from the back leaves a window of the text between two blank runs |
| Strings.TrimPadded | app/earnings.tsx:73 | trimming ignores blank padding |
| Strings.TrimEndKeeps | app/earnings.tsx:408 | trimming the end never removes a non-space character |
| Strings.AsciiLower | app/earnings.tsx:396 | lower-casing keeps the length and maps each character on its own |
| Strings.HasHttpScheme | app/api/fetch-web/route.ts:39 | the test `/^https?:\/\//i`: the lower-cased text starts with `http://` or `https://` (the same test is at app/earnings.tsx:410) |
| Strings.HttpsScheme | app/api/fetch-web/route.ts:39-40 | putting `https://` in front always satisfies the scheme test |
| Attributes.Get | app/api/fetch-web/route.ts:114 | `attr(k)` is present exactly when some attribute is named `k`, and then it is that attribute's value |
| Attributes.Remove | app/api/fetch-web/route.ts:100 | after `removeAttr(k)` there is no `k`, and every other name reads as before |
| Attributes.Set | app/api/fetch-web/route.ts:118 | after `attr(k, v)` the name `k` reads `v` and all others read as before; a new name is appended, a present one keeps its place |
| Attributes.RemoveUnique | app/api/fetch-web/route.ts:108 | removing keeps names distinct |
| Attributes.SetUnique | app/api/fetch-web/route.ts:138 | setting keeps names distinct |
| Dom.TextOf | app/api/fetch-web/route.ts:89 | `.text()` of one node: its descendant text, in document order |
| Dom.MatchText | app/api/fetch-web/route.ts:168 | `$(sel).text()`: the text of every match, in document order |
| Dom.PruneIn | app/api/fetch-web/route.ts:83 | `$(sel).remove()` on a forest: a matching tree is dropped whole, any other keeps its place with its children pruned |
| Dom.PruneTree | app/api/fetch-web/route.ts:83 | a kept tree with `$(sel).remove()` applied to its children |
| Dom.PruneAll | app/api/fetch-web/route.ts:83 | `REMOVE_SELECTORS.forEach(sel => $(sel).remove())`: the selectors are applied one after another, in list order |
| Dom.FirstIn | app/api/fetch-web/route.ts:88 | `.first()` finds a matching element, and finds none exactly when nothing in the forest matches |
| Dom.FirstInIsFirst | app/api/fetch-web/route.ts:88 | no element before the one `.first()` returns, in document order, matches |
| Dom.PruneRemovesAll | app/api/fetch-web/route.ts:83 | after `$(sel).remove()` nothing matches `sel` |
| Dom.PruneKeepsNoneMatch | app/api/fetch-web/route.ts:83 | removal by one selector never brings back a match of another |
| Dom.PruneAllRemovesAll | app/api/fetch-web/route.ts:83 | after the whole blacklist pass no element matches any blacklisted selector |
| Dom.PruneAllKeepsNoneMatch | app/api/fetch-web/route.ts:83 | the blacklist pass never creates a match |
| Dom.PruneNoMatchIsIdentity | app/api/fetch-web/route.ts:83 | removing a selector nothing matches leaves the page as it was |
| Dom.PruneInWellFormed | app/api/fetch-web/route.ts:83 | removal keeps every attribute map duplicate-free |
| Dom.PruneAllWellFormed | app/api/fetch-web/route.ts:83 | the blacklist pass keeps every attribute map duplicate-free |
| Dom.PruneInAppend | app/api/fetch-web/route.ts:83 | removal acts on each tree of a forest separately |
| Capture.NormalizeUrl | app/api/fetch-web/route.ts:38-41 | the address always has an http(s) scheme, ends with the input, and equals it exactly when the input had a scheme (hence idempotent) |
| Capture.Pruned | app/api/fetch-web/route.ts:83 | the document after the blacklist pass with the route's selectors |
| Capture.Qualifies | app/api/fetch-web/route.ts:88-89 | a selector qualifies when it has a first match whose trimmed text is longer than 200 characters |
| Capture.MainFrom | app/api/fetch-web/route.ts:86-93 | the selected main content is an element of the page |
| Capture.MainIsFirstQualifying | app/api/fetch-web/route.ts:86-93 | the main content is the first match of the earliest selector whose trimmed text exceeds 200 characters; later selectors are not consulted |
| Capture.MainFallsBack | app/api/fetch-web/route.ts:86-93 | when no selector qualifies the main content is the first `body` |
| Capture.SelectMain | app/api/fetch-web/route.ts:86-93 | the loop with `break` gives the same choice as the specification |
| Capture.MainOf | app/api/fetch-web/route.ts:86-93 | the position of `$main` in the pruned document, by the selection from the first selector |
| Capture.Cleaned | app/api/fetch-web/route.ts:159 | the pruned document with `$main` replaced by its cleaned form, or unchanged when nothing was selected |
| Capture.MainForest | app/api/fetch-web/route.ts:159-162 | the cleaned children of `$main`, which `.html()` serialises; nothing when no main content was selected |
| Capture.TitleOf | app/api/fetch-web/route.ts:168 | the title is never empty: the page's title text or `网页内容` |
| Capture.BodyOf | app/api/fetch-web/route.ts:162 | the body is the markup of the cleaned main content, or the placeholder paragraph when that is empty or nothing was selected |
| Capture.Document | app/api/fetch-web/route.ts:164-205 | the fixed page template with the title, the stylesheet and the body in their slots |
| Capture.Page | app/api/fetch-web/route.ts:164-205 | the captured page: the template filled with the cleaned document's title and body |
| Capture.DocumentSlots | app/api/fetch-web/route.ts:164-205 | the page opens and closes with the fixed template, and the title and the body can be read back from their slots |
| Capture.LoadPruned | app/api/fetch-web/route.ts:78-83 | the nodes built from the page hold, after the blacklist pass, exactly the pruned page |
| Capture.CleanMainOf | app/api/fetch-web/route.ts:159-162 | cleaning in place leaves the nodes holding the cleaned page, and the body read from them is the specified one |
| Capture.Capture | app/api/fetch-web/route.ts:78-205 | the in-place pipeline produces exactly the specified page |
| Capture.MainForestSafe | app/api/fetch-web/route.ts:96-159 | the body is made of elements without `style`, `on…` or `srcdoc`; with a safe resolver no attribute value mentions `javascript:` or starts with `data:` |
| Capture.ErrorDocument | app/api/fetch-web/route.ts:212-225 | the error document starts with its fixed heading and carries `❌`, the address and the message (`未知错误` when there is none) |
| Capture.Respond | app/api/fetch-web/route.ts:27-230 | 400 exactly for a missing or empty `url`, with the fixed content; 500 exactly when loading fails, with the address in the content; `error` exactly when not 200; a 200 answer carries the normalised address |
| Capture.Get | app/api/fetch-web/route.ts:27-230 | the route, building and cleaning the page in place, answers exactly as `Respond` with the route's blacklist, candidates and stylesheet |
| Sanitize.AttrText | app/api/fetch-web/route.ts:105-106 | what `$node.attr(name)` reads: the name itself for one of cheerio's boolean attributes, in any letter case, and the stored value otherwise |
| Sanitize.Dangerous | app/api/fetch-web/route.ts:102-107 | the key loop's test: a name starting with `on`, the name `srcdoc`, or a read value that contains `javascript:` or starts with `data:` |
| Sanitize.StripAttrs | app/api/fetch-web/route.ts:99-110 | `removeAttr('style')` followed by the loop over the remaining keys |
| Sanitize.KeepSafe | app/api/fetch-web/route.ts:101-110 | the loop over the keys keeps only attributes of the original that fail the danger test |
| Sanitize.KeepSafeUnique | app/api/fetch-web/route.ts:101-110 | the loop keeps names distinct |
| Sanitize.GetKeepSafe | app/api/fetch-web/route.ts:101-110 | after the loop a name reads its old value when that passes the test, and nothing otherwise |
| Sanitize.StripFacts | app/api/fetch-web/route.ts:99-110 | after the attribute pass every attribute is safe, names stay distinct, and every name other than `style` reads its old value if safe |
| Sanitize.BooleanValueUntested | app/api/fetch-web/route.ts:101-110 | a boolean attribute is tested on its name, so `open` is kept whatever its value, `javascript:` included |
| Sanitize.PlainNames | app/api/fetch-web/route.ts:113-138 | `href`, `src` and `loading` are not boolean attributes, so they are tested on their values |
| Sanitize.StripIdentity | app/api/fetch-web/route.ts:99-110 | the attribute pass leaves safe attributes alone |
| Sanitize.RewriteHref | app/api/fetch-web/route.ts:113-123 | the anchor branch: an `href` that is empty or starts with `http`, `#` or `mailto:` is kept; any other is replaced by its resolution, or removed when it cannot be resolved |
| Sanitize.RewriteImg | app/api/fetch-web/route.ts:126-139 | the image branch: a `src` that is empty or starts with `http` or `data:` is kept; any other is replaced by its resolution, or the image is dropped when it cannot be resolved; a kept image then gets the lazy-loading rewrite |
| Sanitize.Lazy | app/api/fetch-web/route.ts:137-138 | `removeAttr('srcset loading decoding')` then `attr('loading', 'lazy')` |
| Sanitize.CleanAttrs | app/api/fetch-web/route.ts:99-139 | one visit's attribute work: the attribute pass, then the anchor branch for `a` and the image branch for `img`; nothing when the image is dropped |
| Sanitize.CleanTree | app/api/fetch-web/route.ts:96-157 | `deepClean(node)` on a value: the element is dropped when its attribute work drops it, otherwise it keeps its tag and gets the cleaned attributes and cleaned children; text passes unchanged |
| Sanitize.CleanIn | app/api/fetch-web/route.ts:156 | `children().each(deepClean)`: the surviving children, each cleaned, in order |
| Sanitize.CleanMain | app/api/fetch-web/route.ts:159 | `$main.children().each(deepClean)`: `$main` keeps its own tag and attributes and only its descendants are cleaned |
| Sanitize.LazyShape | app/api/fetch-web/route.ts:137-138 | an image ends with `loading="lazy"`, no `srcset` or `decoding`, and its `src` untouched |
| Sanitize.LazyIdempotent | app/api/fetch-web/route.ts:137-138 | the lazy-loading rewrite is idempotent |
| Sanitize.LazyFacts | app/api/fetch-web/route.ts:137-138 | the lazy-loading rewrite keeps names distinct and attributes safe |
| Sanitize.AnchorHref | app/api/fetch-web/route.ts:113-123 | an anchor's `href` is kept when empty or starting with `http`, `#` or `mailto:`, otherwise resolved or removed; other attributes are those the attribute pass left |
| Sanitize.ImageSrc | app/api/fetch-web/route.ts:126-139 | an image is removed exactly when its relative `src` cannot be resolved; otherwise its `src` is kept or resolved, it loads lazily, has no `srcset` or `decoding`, and every other attribute reads as the attribute pass left it |
| Sanitize.LazyOthers | app/api/fetch-web/route.ts:137-138 | the lazy-loading rewrite leaves every attribute other than `srcset`, `loading` and `decoding` as it was |
| Sanitize.CleanAttrsNames | app/api/fetch-web/route.ts:99-139 | whatever the resolver does, a cleaned element has distinct names and no `style`, `on…` or `srcdoc` |
| Sanitize.CleanAttrsSafe | app/api/fetch-web/route.ts:99-139 | with a safe resolver every attribute of a cleaned element passes the danger test |
| Sanitize.CleanAttrsIdempotent | app/api/fetch-web/route.ts:99-139 | cleaning an element's attributes twice changes nothing when the resolver both settles and resolves safely; a real URL parser breaks the second hypothesis |
| Sanitize.CleanTreeSafe | app/api/fetch-web/route.ts:96-157 | cleaning one tree gives well-formed, safe trees |
| Sanitize.CleanInAppend | app/api/fetch-web/route.ts:156 | the children are cleaned one by one, in order |
| Sanitize.CleanInSafe | app/api/fetch-web/route.ts:96-157 | a cleaned forest is well formed and free of `style`, `on…` and `srcdoc`, and, with a safe resolver, of dangerous values |
| Sanitize.CleanInIdempotent | app/api/fetch-web/route.ts:96-157 | cleaning a cleaned forest again changes nothing when the resolver both settles and resolves safely |
| Sanitize.CleanMainIdempotent | app/api/fetch-web/route.ts:159 | cleaning the main content's descendants twice changes nothing when the resolver both settles and resolves safely |
| Sanitize.ResolvedHrefUntested | app/api/fetch-web/route.ts:113-123 | a resolved `href` is stored without passing the danger test again |
| Sanitize.MixedCaseSchemeSurvives | app/api/fetch-web/route.ts:101-123 | `JavaScript:x` passes the case-sensitive test, and a resolver that lower-cases it produces `javascript:x` |
| Sanitize.LoweredSchemeIsDangerous | app/api/fetch-web/route.ts:105 | the lower-cased value is one the test removes |
| Sanitize.SettlingIsNotEnough | app/api/fetch-web/route.ts:101-123 | with a resolver that lower-cases, and so settles, one pass over `href="JavaScript:x"` stores `javascript:x` and a second pass removes it: two passes differ from one |
| Sanitize.LowerSchemeSettles | app/api/fetch-web/route.ts:117 | lower-casing twice is lower-casing once, so that resolver settles |
| Sanitize.Screened | app/api/fetch-web/route.ts:113-133 | the corrected resolver: a resolved URL that the attribute test would remove counts as unresolvable |
| Sanitize.ScreenedFacts | app/api/fetch-web/route.ts:113-133 | every URL the screened resolver produces passes the attribute test, and screening a resolver that settles gives one that settles |
| Sanitize.ScreenedCleanSafe | app/api/fetch-web/route.ts:96-157 | with the screened resolver no cleaned attribute holds a dangerous value, whatever the URL parser does |
| Sanitize.ScreenedCleanIdempotent | app/api/fetch-web/route.ts:96-157 | with the screened resolver, cleaning twice equals cleaning once whenever the parser settles |
| Sanitize.ScreenedRemovesMixedCase | app/api/fetch-web/route.ts:113-123 | the screened resolver removes the `JavaScript:x` link in the first pass |
| Elements.Node.Build | app/api/fetch-web/route.ts:78 | `cheerio.load` builds fresh nodes holding the page |
| Elements.Node.StripUnsafe | app/api/fetch-web/route.ts:100-110 | `removeAttr('style')` and the loop over the keys leave the attributes the attribute pass specifies |
| Elements.Node.VisitKey | app/api/fetch-web/route.ts:102-109 | one key's visit reads its current value and removes it exactly when dangerous |
| Elements.Node.RewriteLink | app/api/fetch-web/route.ts:113-123 | the anchor branch in place gives the specified attributes |
| Elements.Node.RewriteImage | app/api/fetch-web/route.ts:126-139 | the image branch in place reports removal exactly when the specification removes the image |
| Elements.Node.CleanAttributes | app/api/fetch-web/route.ts:99-139 | one visit's attribute work in place matches the specification and keeps names distinct |
| Elements.Node.CleanOwnAttributes | app/api/fetch-web/route.ts:99-139 | the same on a valid node, whose value is brought up to date |
| Elements.Node.DeepClean | app/api/fetch-web/route.ts:96-157 | `deepClean(node)` in place: the node is kept exactly when the specification keeps it, and then holds the cleaned tree |
| Elements.Node.WalkChildren | app/api/fetch-web/route.ts:156 | the walk over the children captured at its start leaves exactly the visited outcomes, in order |
| Elements.Node.WalkEach | app/api/fetch-web/route.ts:156 | the kept nodes own separate objects and hold the walk's outcomes, in order |
| Elements.Node.VisitNode | app/api/fetch-web/route.ts:96-157 | one visit changes only the visited node's objects |
| Elements.Node.Visit | app/api/fetch-web/route.ts:96-157 | a visit removes or rewrites the node as the specification says |
| Elements.Node.RemoveEach | app/api/fetch-web/route.ts:83 | the blacklist `forEach` in place leaves the pruned page |
| Elements.Node.CleanAt | app/api/fetch-web/route.ts:159 | `$main.children().each(deepClean)` in place replaces the main content by its cleaned form and nothing else |
| Framing.Split | app/earnings.tsx:521 | `split('\n')` gives at least one piece and no piece holds a newline |
| Framing.JoinSplit | app/earnings.tsx:521 | the pieces joined by newlines give the text back |
| Framing.SplitJoin | app/earnings.tsx:521 | newline-free pieces are exactly what splitting their join gives |
| Framing.SplitAppend | app/earnings.tsx:520-521 | splitting a concatenation fuses the last piece of the first part with the first piece of the second |
| Framing.Feed | app/earnings.tsx:520-522 | one read: the buffer plus the chunk is split at newlines; every piece but the last goes out as a line and the last piece becomes the buffer |
| Framing.FeedAll | app/earnings.tsx:510-522 | the whole body read chunk by chunk from an empty buffer: the lines of every read in order, and the buffer left by the last |
| Framing.FeedKeepsText | app/earnings.tsx:520-522 | after a read the buffer holds no newline, and the lines, each with its newline, followed by the buffer, are the old buffer plus the chunk |
| Framing.TerminatedJoin | app/earnings.tsx:521-522 | joining by newlines is terminating all pieces but the last |
| Framing.FeedMore | app/earnings.tsx:518-522 | one more read sends on exactly the complete lines splitting the whole text would add |
| Framing.FeedAllSplits | app/earnings.tsx:511-522 | however the text is cut into chunks, the lines sent on are its complete lines and the buffer its unterminated tail |
| Stream.ParseError | app/earnings.tsx:541 | the fragment for a line that is not JSON: `❌ [流解析错误: …]` carrying the line |
| Stream.Failure | app/earnings.tsx:552-555 | the single failure fragment: the fixed `❌ Ollama API 连接失败` text around the error's message |
| Stream.HttpMessage | app/earnings.tsx:503 | the message thrown for a status that is not ok: `HTTP `, the status, `: ` and the body text |
| Stream.Fragments | app/earnings.tsx:487-560 | what the generator yields: nothing when aborted, one failure fragment when the request fails, the status is not ok or there is no body, otherwise the scan of the complete lines read before an abort, with a broken read's failure appended unless the scan ended or an abort was seen |
| Stream.Scan | app/earnings.tsx:523-544 | no empty fragment is ever yielded |
| Stream.ScanAppend | app/earnings.tsx:523-544 | lines after the end change nothing; otherwise their fragments follow in order |
| Stream.NonBlank | app/earnings.tsx:524 | the lines that are not blank, in order |
| Stream.ScanSkipsBlank | app/earnings.tsx:524 | dropping every blank line gives the same result |
| Stream.ScanInOrder | app/earnings.tsx:526-530 | until the end, what is yielded is exactly the truthy responses in arrival order |
| Stream.DoneEnds | app/earnings.tsx:531-533 | a `done` record's response is the last fragment and nothing after it is looked at |
| Stream.MalformedEnds | app/earnings.tsx:534-543 | a malformed line yields exactly one final fragment, which contains the line |
| Stream.CompleteGrows | app/earnings.tsx:518-522 | reading more chunks only adds complete lines at the end |
| Stream.Reads | app/earnings.tsx:512-516 | an abort never lets more chunks be read than arrive |
| Stream.ReadChunk | app/earnings.tsx:518-544 | one read gives the buffer's new tail and the scan of its complete lines |
| Stream.ScanLines | app/earnings.tsx:523-544 | the loop over one read's lines yields the specified fragments; a parse error ends the stream |
| Stream.ReadExtends | app/earnings.tsx:518-544 | the lines of one read extend the complete lines and their scan extends the scan so far |
| Stream.CallStream | app/earnings.tsx:487-560 | the generator yields exactly `Fragments`: nothing on an aborted request, one failure message on a failed request, an error status or no body, otherwise the scan of the complete lines read before an abort, with the failure of a broken read appended unless the stream already ended |
| Stream.ReadStream | app/earnings.tsx:508-559 | the read loop over a streamed body yields exactly `Fragments` for it |
| Stream.ReadStep | app/earnings.tsx:518-544 | one turn of the read loop keeps the buffer equal to the unfinished last line and the output equal to the scan of the complete lines |
| Stream.AbortSeen | app/earnings.tsx:512-516 | an abort seen before a read leaves exactly what was yielded from the lines read so far |
| Stream.RanOut | app/earnings.tsx:519-555 | when the body runs out without an abort or an end, the output is the scan of all lines, followed by the failure of a broken read |
| Stream.EndedEarly | app/earnings.tsx:531-542 | once the scan has ended, no later read or abort changes the output |
| Stream.AbortIgnoresLater | app/earnings.tsx:512-516 | once an abort is seen nothing later is read: later chunks and the ending do not change the output |
| Stream.AbortTruncates | app/earnings.tsx:512-516 | an aborted call yields a prefix of what the unaborted call yields |
| Stream.TailNeverParsed | app/earnings.tsx:519-522 | a last line without a newline is never parsed |
| Prompt.IsHtml | app/earnings.tsx:73 | the pane renders a text as HTML when its trimmed form starts with `<` |
| Prompt.IsHtmlIgnoresSpace | app/earnings.tsx:73 | white space around a text never changes whether it is shown as HTML |
| Prompt.Target | app/earnings.tsx:410-417 | the target always has an http(s) scheme: the input itself when it has one, `https://` + input when it holds a `.`, otherwise the Bing search for the encoded input |
| Prompt.SearchScheme | app/earnings.tsx:415 | the search address has an https scheme |
| Prompt.AddressFor | app/earnings.tsx:407-430 | Enter is ignored exactly for blank input or the local-file label; otherwise it opens the trimmed input's target when the URL parser accepts it, and refuses it when not |
| Prompt.LocalLabelIgnored | app/earnings.tsx:409 | the label written after an upload is always ignored, whatever the file name |
| Prompt.IsPdfUrl | app/earnings.tsx:396 | a URL is a PDF when its lower-cased form ends with `.pdf` or contains `.pdf?` |
| Prompt.PdfUrlIgnoresCase | app/earnings.tsx:396 | the PDF test ignores ASCII letter case |
| Prompt.PdfSuffix | app/earnings.tsx:396 | a URL ending in `.pdf`, in any case, is a PDF |
| Prompt.ContextFor | app/earnings.tsx:445-461 | a PDF exactly in PDF mode with a URL; a page exactly in fetched mode with text and an address; a warning exactly when there is no text; any text sent is the fetched text and holds no `❌` |
| Prompt.Snippet | app/earnings.tsx:467 | text of at most 1000 characters is unchanged; longer text becomes its first 1000 characters followed by the cut mark |
| Prompt.Quote | app/earnings.tsx:467-470 | the quoted page: the fixed lead-in with the address, then the snippet between the start and end markers |
| Prompt.ContextInfo | app/earnings.tsx:465-475 | nothing without a context; the quoted page when there is text; the local-PDF note for a PDF without text; nothing otherwise |
| Prompt.Instruction | app/earnings.tsx:477-479 | the fixed summary instruction for a summary, otherwise the question framed by the fixed answer instruction |
| Prompt.GeneralPrompt | app/earnings.tsx:482 | the warning prompt: the warning and the question inside the fixed general-knowledge text |
| Prompt.ModelPrompt | app/earnings.tsx:462-486 | a warning replaces the whole prompt by the general-knowledge prompt; without one the prompt ends with the instruction |
| Prompt.NoQuoteWithoutPage | app/earnings.tsx:465-483 | a PDF or an empty pane always gets the general-knowledge prompt |
| Prompt.PageQuoted | app/earnings.tsx:462-486 | a fetched page without `❌` is quoted, cut to the snippet, with its address, before the instruction |
| Prompt.MarkedPageWithheld | app/earnings.tsx:450-457 | a fetched text holding `❌` anywhere is withheld and replaced by the fetch warning |
| Prompt.SummaryFor | app/earnings.tsx:561-575 | busy exactly when a summary is in progress; the model is asked exactly when there is a context without a warning, with the summary prompt; otherwise the refusal names the reason |
| Prompt.SummaryQuotesPage | app/earnings.tsx:561-575 | a summary is only ever asked for with the fetched page's text quoted |
| Viewer.IsNavigation | app/earnings.tsx:437 | the one message acted on: type `navigate` with a non-empty URL |
| Viewer.Connecting | app/earnings.tsx:363 | the placeholder shown while the proxy works, naming the address |
| Viewer.Ok | app/earnings.tsx:369 | `response.ok`: a status from 200 to 299 |
| Viewer.LoadFailedReport | app/earnings.tsx:387 | the page's own report: the fixed heading and advice around the address and the error message |
| Viewer.Pane.constructor | app/earnings.tsx:228-234 | the pane starts with the given PDF, no page, an empty address bar, no view mode, not loading |
| Viewer.Pane.Upload | app/earnings.tsx:346-355 | a PDF file is shown from its object URL, drops the page and writes the local-file label; anything else changes nothing |
| Viewer.Shown | app/earnings.tsx:366-388 | a failed request or a status that is not ok shows the page's own report, a heading with `❌` naming the address and the error (the status for a bad status, `未知连接错误` when the thrown value is not an `Error`; an `Error` with an empty message shows it empty); otherwise the body's `content`, or its `message` when `error` is set and `content` is empty |
| Viewer.ReportFacts | app/earnings.tsx:387 | the page's report opens with a heading, carries `❌` and names the address |
| Viewer.Decimal | app/earnings.tsx:370 | a number is written as a non-empty run of decimal digits |
| Viewer.Pane.Fetch | app/earnings.tsx:360-392 | a fetch ends in fetched mode, not loading, showing what `Shown` picks for the proxy's answer |
| Viewer.Pane.NavigateTo | app/earnings.tsx:393-406 | an empty URL changes nothing; a PDF URL shows the PDF and drops the page; any other clears the PDF and shows what `Shown` picks for the proxy's answer for it; the address bar shows the URL |
| Viewer.Pane.Enter | app/earnings.tsx:407-430 | Enter does what `AddressFor` decides: only an accepted target changes the pane, and the address bar then holds an http(s) URL; a PDF target shows the PDF and leaves the loading flag as it was, any other shows what `Shown` picks |
| Viewer.Pane.Receive | app/earnings.tsx:435-443 | only a `navigate` message with a URL changes the pane, and it navigates to that URL: a PDF leaves the loading flag as it was, any other page ends not loading and shows what `Shown` picks |
| Viewer.UploadedPdfContext | app/earnings.tsx:346-355 | after an upload the model is told about the PDF with its warning and no text, and Enter does nothing |
| Chat.WithAnswer | app/earnings.tsx:618-624 | only the newest turn's answer changes; an empty transcript stays empty |
| Chat.WithAnswerAdded | app/earnings.tsx:609-624 | filling the turn just added gives it the answer and leaves the rest alone |
| Chat.Session.constructor | app/earnings.tsx:235-251 | the chat starts empty, with no send in flight and no controller |
| Chat.Session.Type | app/earnings.tsx:860 | typing sets the input |
| Chat.Session.Begin | app/earnings.tsx:602-612 | a blank input or a send in flight changes nothing; otherwise one empty turn is added, the input is cleared, a controller is made and the prompt is built from the context |
| Chat.Session.Take | app/earnings.tsx:616-624 | a fragment extends the text so far, which becomes the newest turn's answer |
| Chat.Session.Finish | app/earnings.tsx:556-559 | the stream's `finally` leaves nothing in flight |
| Chat.Session.Stop | app/earnings.tsx:641-647 | stop aborts exactly when there is a controller, and leaves nothing in flight |
| Chat.Session.Fill | app/earnings.tsx:614-626 | taking every fragment in turn leaves the newest turn holding their concatenation and the older turns untouched |
| Chat.Session.Send | app/earnings.tsx:602-640 | a refused send changes nothing; otherwise exactly one turn is added, whose answer is the concatenation of everything the stream yielded, and nothing is left in flight |
| Reader.PageShownAsHtml | app/api/fetch-web/route.ts:164-205 | every built page starts with `<`, so the reading page shows it as HTML |
| Reader.HtmlWhenOpening | app/earnings.tsx:73 | a text starting with `<` is shown as HTML |
| Reader.PageShown | app/earnings.tsx:369-381 | a page the route built comes with an ok status and no error flag, so the pane shows it unchanged, as HTML |
| Reader.PageIsHtml | app/api/fetch-web/route.ts:162-205 | the page built from any document is HTML to the reading page |
| Reader.OkShownAsIs | app/earnings.tsx:369-381 | an ok answer without the error flag is shown as it came |
| Reader.ErrorsWithheld | app/earnings.tsx:366-388 | every error response of the route is 400 or 500, so the page shows its own report naming the status in place of the route's; that report is Markdown and the model gets the fetch warning instead of it |
| Reader.ReportReplaces | app/earnings.tsx:369-388 | an answer that is not ok and carries either of the route's reports is replaced by the page's own report, which differs from it and is withheld |
| Reader.ReportWithheld | app/earnings.tsx:450-457 | a Markdown report with a heading and `❌` is not HTML and is withheld from the model |

## Left out

- The headless browser (launch, user agent, navigation, scrolling and waiting, closing) is a parameter `load` that gives the parsed page or the error message.
- cheerio's parser, its selector engine and `.html()` are parameters. The selector test is given an element's tag and attributes only; every selector the route uses is of that kind.
- `new URL(rel, base).href` is a parameter. So are `new URL(url)` as a validity test, `encodeURIComponent`, `JSON.parse`, `URL.createObjectURL` and the model server's reply. The parser's record is reduced to `response` and `done`. A line whose record cannot be read (not JSON, or `null`) is `Malformed`.
- `TextDecoder` is left out: the chunks are text already decoded.
- Text is a sequence of code points, not UTF-16 units. The 200-character test and the 1000-character cut count code points.
- `toLowerCase` is modelled on ASCII letters only. No other character lower-cases to `.`, `p`, `d`, `f` or `?`, so the PDF test is unaffected.
- The isolation stylesheet is an opaque constant. The rendering of HTML and Markdown is left out, apart from the test that chooses between them.
- The inline-style `url()` rewrite (route.ts:141-153) has no member. `style` is removed first (route.ts:100), so that branch never runs.
- Asynchrony is modelled as sequential steps:
  - `fetchWebContent` runs to completion inside `NavigateTo` before the address bar is set.
  - The generator is consumed after it has produced all its fragments.
  - An abort is the index of the read before which it is seen (`abortAt`).
- The race in which an old stream's `finally` clears the controller of a newer send is not modelled.
- The `catch` of `handleSend` is not modelled: the generator catches every error itself, so that `catch` is never reached.
- Viewer.Pane.Fetch: the request to the capture route itself is the parameter `ask`, which gives the proxy's answer: nothing usable (with the error's message), or a status and the JSON body's fields. A status is written in decimal, as a template literal writes an integer.
- cheerio's list of boolean attribute names is taken as its 15 lower-case names; cheerio's attribute code itself is not part of this model. Sanitize.StripFacts and Sanitize.CleanAttrsSafe hold as stated, but for a boolean attribute "passes the test" says nothing about its stored value.
- The summary request itself (`summarizeContent` after the guard, a call that is not streamed) is left out. Only the guard and the prompt are modelled.
- Stream.Scan: its contract states only that fragments are non-empty. The ordering, ending and blank-line properties are separate lemmas.
- Comment nodes are not modelled. In the page they are skipped by `.children()`, `.text()` and the selectors, and pass through `$main.html()` unchanged (route.ts:162).
- Drag-to-resize, the avatar menu, scrolling into view, the landing page and the layout are user interface only.

Behaviour of the code worth knowing:

- The blacklist is applied to the whole document before the main content is chosen.
- A candidate needs strictly more than 200 trimmed characters.
- Inline style `url()`s are never rewritten.
- A PDF context never reaches the model. Its warning replaces the prompt, so the local-PDF note (earnings.tsx:471-473) is never used.
- An abort is checked only before each read. All lines of a chunk already read are still yielded.
- A fetched page that merely contains `❌` counts as a failed fetch.
- `errorOccurred` is set only just before a `return`. The test of it in the outer `catch` is therefore always true when reached.
- The page title is inserted into the template unescaped.
- A boolean attribute such as `open` or `hidden` is read by `attr(name)` as its own name, so the cleaning loop never looks at its value: `<details open="javascript:x">` keeps it.
- Every error answer of the route has status 400 or 500, so `fetchWebContent` throws before reading the body. The page's `data.error` branch (earnings.tsx:375-378) is never reached and the route's own reports are never shown; the page shows its own report naming the status.

## Findings

The rest of the model follows the code as written: the route takes the URL parser as a parameter, so the corrected route is the same route given `Screened(resolve)`.

| source | as written | input that shows it | evidently intended | confidence | as-written member | corrected member |
|---|---|---|---|---|---|---|
| app/api/fetch-web/route.ts:101-118 | the case-sensitive `javascript:` test runs before links are resolved, and the resolved `href` is stored without being tested again | `<a href="JavaScript:x">` with a URL parser that lower-cases the scheme, as the WHATWG parser does: the first pass stores `javascript:x`, a second pass removes it | no stored link carries a `javascript:` or `data:` URL, and cleaning is idempotent | not executed; follows from the WHATWG URL parser lower-casing the scheme | Sanitize.SettlingIsNotEnough | Sanitize.ScreenedCleanIdempotent |
