/** The streamed model call (`callOllamaStream`): the reply is read chunk by
    chunk, cut into lines, and every line is one JSON record whose `response`
    text is passed on until a record says `done`, a line fails to parse, the
    user aborts or the connection ends. */
module Stream {
  import opened Wrappers
  import opened Strings
  import opened Framing

  /** What `JSON.parse` makes of one line, reduced to the two fields read:
      `response` (only a non-empty string is truthy) and `done`. */
  datatype Record = Parsed(response: string, done: bool) | Malformed

  type Parser = string -> Record

  /** How the body ends after its last chunk: the reader reports the end, the
      read fails, or the read is interrupted by the abort signal. */
  datatype Ending = Closed | Broken(message: string) | Cancelled

  /** What the request to the local model server gave back. */
  datatype Reply =
    | Unreachable(message: string)          // `fetch` rejected
    | Aborted                               // `fetch` rejected by the abort signal
    | Rejected(status: nat, text: string)   // a status outside 200-299
    | Bodiless                              // `res.body` is null
    | Streamed(chunks: seq<string>, ending: Ending)

  /** The fragment that replaces a line that is not JSON; it carries the line. */
  function ParseError(line: string): string {
    "\n\n❌ [流解析错误: " + line + "]"
  }

  const NoBodyMessage := "响应体为空，无法进行流式传输。"

  const FailureHead := "❌ Ollama API 连接失败。\n详细错误："
  const FailureAdvice := "\n\n请确保：\n1. Ollama 正在运行: `ollama serve`\n2. 模型已拉取: `ollama pull gpt-oss:20b`\n3. **更重要的是，由于跨域/同源限制，请使用 Next.js API Route (或其它后端) 作为代理，在服务器端完成内容抓取和 Ollama 调用。**"

  /** The single fragment yielded when the request fails outright. */
  function Failure(message: string): string {
    FailureHead + message + FailureAdvice
  }

  /** The message of the error thrown for an unsuccessful status. */
  function HttpMessage(status: nat, text: string): string {
    "HTTP " + Decimal(status) + ": " + text
  }

  /** `String(n)` for a natural number. */
  function Decimal(n: nat): string
    decreases n
  {
    if n < 10 then [Digit(n)] else Decimal(n / 10) + [Digit(n % 10)]
  }

  function Digit(d: nat): char
    requires d < 10
  {
    "0123456789"[d]
  }

  /** The records of complete lines read so far: the fragments yielded and
      whether the stream has ended (a `done` record or a malformed line). */
  datatype Scanned = Scanned(out: seq<string>, ended: bool)

  function Scan(lines: seq<string>, parse: Parser): (r: Scanned)
    ensures forall i :: 0 <= i < |r.out| ==> r.out[i] != ""
    decreases |lines|
  {
    if lines == [] then Scanned([], false)
    else
      var line := lines[0];
      if IsBlank(line) then Scan(lines[1..], parse)
      else match parse(line)
        case Malformed => Scanned([ParseError(line)], true)
        case Parsed(response, done) =>
          var here := if response != "" then [response] else [];
          if done then Scanned(here, true)
          else
            var rest := Scan(lines[1..], parse);
            Scanned(here + rest.out, rest.ended)
  }

  /** Scanning more lines after the stream has ended changes nothing;
      otherwise the fragments of the next lines follow those already out. */
  lemma {:induction false} ScanAppend(a: seq<string>, b: seq<string>, parse: Parser)
    ensures Scan(a + b, parse)
         == if Scan(a, parse).ended then Scan(a, parse)
            else Scanned(Scan(a, parse).out + Scan(b, parse).out, Scan(b, parse).ended)
    decreases |a|
  {
    if a == [] {
      assert a + b == b;
    } else {
      assert (a + b)[0] == a[0];
      assert (a + b)[1..] == a[1..] + b;
      ScanAppend(a[1..], b, parse);
      var line := a[0];
      if !IsBlank(line) && parse(line).Parsed? && !parse(line).done {
        var here := if parse(line).response != "" then [parse(line).response] else [];
        AppendAssoc(here, Scan(a[1..], parse).out, Scan(b, parse).out);
      }
    }
  }

  lemma ScanPrefix(a: seq<string>, b: seq<string>, parse: Parser)
    requires a <= b && Scan(a, parse).ended
    ensures Scan(b, parse) == Scan(a, parse)
  {
    assert b == a + b[|a|..];
    ScanAppend(a, b[|a|..], parse);
  }

  /** The non-blank lines, in order: the only ones the scan looks at. */
  function NonBlank(lines: seq<string>): (r: seq<string>)
    ensures forall i :: 0 <= i < |r| ==> !IsBlank(r[i])
    ensures |r| <= |lines|
  {
    if lines == [] then []
    else (if IsBlank(lines[0]) then [] else [lines[0]]) + NonBlank(lines[1..])
  }

  /** Blank lines are skipped: dropping them all gives the same scan. */
  lemma {:induction false} ScanSkipsBlank(lines: seq<string>, parse: Parser)
    ensures Scan(NonBlank(lines), parse) == Scan(lines, parse)
    decreases |lines|
  {
    if lines != [] {
      ScanSkipsBlank(lines[1..], parse);
      if IsBlank(lines[0]) {
        assert NonBlank(lines) == NonBlank(lines[1..]);
      } else {
        var nb := NonBlank(lines);
        assert nb[0] == lines[0] && nb[1..] == NonBlank(lines[1..]);
      }
    }
  }

  /** The truthy `response` texts of the non-blank lines, in arrival order,
      with no regard to `done`. */
  function Responses(lines: seq<string>, parse: Parser): seq<string>
    decreases |lines|
  {
    if lines == [] then []
    else
      var line := lines[0];
      var here := if !IsBlank(line) && parse(line).Parsed? && parse(line).response != ""
        then [parse(line).response] else [];
      here + Responses(lines[1..], parse)
  }

  /** Until the stream ends, what is yielded is exactly the truthy responses
      in the order they arrived. */
  lemma {:induction false} ScanInOrder(lines: seq<string>, parse: Parser)
    requires !Scan(lines, parse).ended
    ensures Scan(lines, parse).out == Responses(lines, parse)
    decreases |lines|
  {
    if lines != [] {
      ScanInOrder(lines[1..], parse);
    }
  }

  /** A `done` record ends the stream: its own response is the last
      fragment and nothing after it is looked at. */
  lemma DoneEnds(before: seq<string>, line: string, after: seq<string>, parse: Parser)
    requires !Scan(before, parse).ended
    requires !IsBlank(line) && parse(line).Parsed? && parse(line).done
    ensures Scan(before + [line] + after, parse)
         == Scanned(Scan(before, parse).out
                    + (if parse(line).response != "" then [parse(line).response] else []), true)
  {
    ScanAppend(before, [line] + after, parse);
    AppendAssoc(before, [line], after);
  }

  /** A malformed line yields exactly one final fragment, which contains the
      raw line, and ends the stream. */
  lemma MalformedEnds(before: seq<string>, line: string, after: seq<string>, parse: Parser)
    requires !Scan(before, parse).ended
    requires !IsBlank(line) && parse(line).Malformed?
    ensures var r := Scan(before + [line] + after, parse);
      && r == Scanned(Scan(before, parse).out + [ParseError(line)], true)
      && Contains(r.out[|r.out| - 1], line)
  {
    ScanAppend(before, [line] + after, parse);
    AppendAssoc(before, [line], after);
    ContainsInfix("\n\n❌ [流解析错误: ", line, "]", line);
  }

  /** The complete lines among the first `k` chunks. */
  function Complete(chunks: seq<string>, k: nat): seq<string>
    requires k <= |chunks|
  {
    Init(Split(Concat(chunks[..k])))
  }

  /** Reading more chunks only adds complete lines at the end. */
  lemma {:induction false} CompleteGrows(chunks: seq<string>, j: nat, k: nat)
    requires j <= k <= |chunks|
    ensures Complete(chunks, j) <= Complete(chunks, k)
    decreases k
  {
    if j < k {
      CompleteGrows(chunks, j, k - 1);
      assert chunks[..k - 1] == chunks[..k][..k - 1];
      FeedMore(Concat(chunks[..k - 1]), chunks[k - 1]);
    }
  }

  /** The abort signal is seen by the check made before read `i`. */
  predicate Seen(abortAt: Option<nat>, i: nat) {
    abortAt.Some? && abortAt.value <= i
  }

  /** The number of chunks read before an abort is seen. */
  function Reads(n: nat, abortAt: Option<nat>): (k: nat)
    ensures k <= n
  {
    if abortAt.Some? && abortAt.value < n then abortAt.value else n
  }

  /** Everything the call yields, in order, for a reply, the read before
      which the abort signal is first seen (if any) and the JSON parser. */
  function Fragments(reply: Reply, abortAt: Option<nat>, parse: Parser): seq<string> {
    match reply
    case Aborted => []
    case Unreachable(message) => [Failure(message)]
    case Rejected(status, text) => [Failure(HttpMessage(status, text))]
    case Bodiless => [Failure(NoBodyMessage)]
    case Streamed(chunks, ending) =>
      var sc := Scan(Complete(chunks, Reads(|chunks|, abortAt)), parse);
      if sc.ended || Seen(abortAt, |chunks|) then sc.out
      else if ending.Broken? then sc.out + [Failure(ending.message)]
      else sc.out
  }

  /** The call itself: the request's outcome, then the read loop. */
  method CallStream(reply: Reply, abortAt: Option<nat>, parse: Parser) returns (out: seq<string>)
    ensures out == Fragments(reply, abortAt, parse)
  {
    match reply {
      case Aborted => out := [];
      case Unreachable(message) => out := [Failure(message)];
      case Rejected(status, text) => out := [Failure(HttpMessage(status, text))];
      case Bodiless => out := [Failure(NoBodyMessage)];
      case Streamed(chunks, ending) => out := ReadStream(chunks, ending, abortAt, parse);
    }
  }

  /** The read loop of a body that arrived: the abort check before each
      read, the buffer and the per-line records, and the failure of a broken
      read unless a line already failed. */
  method ReadStream(chunks: seq<string>, ending: Ending, abortAt: Option<nat>, parse: Parser)
    returns (out: seq<string>)
    ensures out == Fragments(Streamed(chunks, ending), abortAt, parse)
  {
    var errorOccurred := false;
    out := [];
    var buffer := "";
    var i := 0;
    while true
      invariant 0 <= i <= |chunks|
      invariant abortAt.Some? ==> i <= abortAt.value
      invariant buffer == Last(Split(Concat(chunks[..i])))
      invariant Scan(Complete(chunks, i), parse) == Scanned(out, false)
      invariant !errorOccurred
      decreases |chunks| - i
    {
      if Seen(abortAt, i) {
        AbortSeen(chunks, ending, i, abortAt, parse);
        return;
      }
      if i == |chunks| {
        break;
      }
      var ended, malformed;
      out, buffer, ended, malformed := ReadStep(chunks, i, buffer, out, parse);
      if ended {
        errorOccurred := malformed;
        EndedEarly(chunks, ending, i + 1, abortAt, parse);
        return;
      }
      i := i + 1;
    }
    RanOut(chunks, ending, abortAt, parse);
    if ending.Broken? && !errorOccurred {
      out := out + [Failure(ending.message)];
    }
  }

  /** One turn of the read loop after the abort check: read `i` is added to
      the buffer and its complete lines are scanned after those before. */
  method ReadStep(chunks: seq<string>, i: nat, buffer: string, out: seq<string>, parse: Parser)
    returns (out': seq<string>, buffer': string, ended: bool, malformed: bool)
    requires i < |chunks|
    requires buffer == Last(Split(Concat(chunks[..i])))
    requires Scan(Complete(chunks, i), parse) == Scanned(out, false)
    ensures Scan(Complete(chunks, i + 1), parse) == Scanned(out', ended)
    ensures buffer' == Last(Split(Concat(chunks[..i + 1])))
  {
    var more, rest;
    more, ended, malformed, rest := ReadChunk(buffer, chunks[i], parse);
    ReadExtends(chunks, i, parse);
    out' := out + more;
    buffer' := rest;
  }

  /** An abort seen before read `i`: the output is the scan of the complete
      lines of the reads before it. */
  lemma AbortSeen(chunks: seq<string>, ending: Ending, i: nat, abortAt: Option<nat>, parse: Parser)
    requires i <= |chunks| && abortAt == Some(i)
    ensures Fragments(Streamed(chunks, ending), abortAt, parse) == Scan(Complete(chunks, i), parse).out
  {
    assert Reads(|chunks|, abortAt) == i;
  }

  /** Every chunk read without an abort and without the records ending the
      stream: the output is their scan, then the failure of a broken read. */
  lemma RanOut(chunks: seq<string>, ending: Ending, abortAt: Option<nat>, parse: Parser)
    requires !Seen(abortAt, |chunks|)
    requires !Scan(Complete(chunks, |chunks|), parse).ended
    ensures Fragments(Streamed(chunks, ending), abortAt, parse)
         == Scan(Complete(chunks, |chunks|), parse).out
            + (if ending.Broken? then [Failure(ending.message)] else [])
  {
    assert Reads(|chunks|, abortAt) == |chunks|;
  }

  /** When the records of the first `k` reads end the stream, before any
      abort is seen, the output is their scan, whatever follows. */
  lemma EndedEarly(chunks: seq<string>, ending: Ending, k: nat, abortAt: Option<nat>, parse: Parser)
    requires 0 < k <= |chunks|
    requires abortAt.Some? ==> k <= abortAt.value
    requires Scan(Complete(chunks, k), parse).ended
    ensures Fragments(Streamed(chunks, ending), abortAt, parse) == Scan(Complete(chunks, k), parse).out
  {
    var r := Reads(|chunks|, abortAt);
    CompleteGrows(chunks, k, r);
    ScanPrefix(Complete(chunks, k), Complete(chunks, r), parse);
  }

  /** One pass of the read loop after the abort check: the chunk joins the
      buffer, and the complete lines are scanned in order. */
  method ReadChunk(buffer: string, chunk: string, parse: Parser)
    returns (more: seq<string>, ended: bool, malformed: bool, rest: string)
    ensures var f := Feed(buffer, chunk);
      && rest == f.buffer
      && Scanned(more, ended) == Scan(f.lines, parse)
  {
    var parts := Split(buffer + chunk);
    rest := parts[|parts| - 1];
    var lines := parts[..|parts| - 1];
    more, ended, malformed := ScanLines(lines, parse);
  }

  /** The loop over the lines of one read. `malformed` is the source's
      `errorOccurred`: it is set only when a line fails to parse. */
  method ScanLines(lines: seq<string>, parse: Parser) returns (out: seq<string>, ended: bool, malformed: bool)
    ensures Scanned(out, ended) == Scan(lines, parse)
    ensures malformed ==> ended
  {
    out, ended, malformed := [], false, false;
    var j := 0;
    while j < |lines|
      invariant 0 <= j <= |lines|
      invariant Scan(lines[..j], parse) == Scanned(out, false)
      invariant !ended && !malformed
    {
      var line := lines[j];
      ScanAppend(lines[..j], [line], parse);
      assert lines[..j + 1] == lines[..j] + [line];
      if IsBlank(line) {
        j := j + 1;
        continue;
      }
      match parse(line) {
        case Malformed =>
          out, ended, malformed := out + [ParseError(line)], true, true;
        case Parsed(response, done) =>
          if response != "" {
            out := out + [response];
          }
          if done {
            ended := true;
          }
      }
      if ended {
        ScanPrefix(lines[..j + 1], lines, parse);
        assert lines[..|lines|] == lines;
        return;
      }
      j := j + 1;
    }
    assert lines[..j] == lines;
  }

  /** The loop's step: the lines of read `i` extend the complete lines, and
      their scan extends the scan so far. */
  lemma ReadExtends(chunks: seq<string>, i: nat, parse: Parser)
    requires i < |chunks|
    requires !Scan(Complete(chunks, i), parse).ended
    ensures var f := Feed(Last(Split(Concat(chunks[..i]))), chunks[i]);
      && Complete(chunks, i + 1) == Complete(chunks, i) + f.lines
      && Last(Split(Concat(chunks[..i + 1]))) == f.buffer
      && Scan(Complete(chunks, i + 1), parse)
         == Scanned(Scan(Complete(chunks, i), parse).out + Scan(f.lines, parse).out,
                    Scan(f.lines, parse).ended)
  {
    assert chunks[..i + 1][..i] == chunks[..i];
    FeedMore(Concat(chunks[..i]), chunks[i]);
    var f := Feed(Last(Split(Concat(chunks[..i]))), chunks[i]);
    ScanAppend(Complete(chunks, i), f.lines, parse);
  }

  /** Once the abort is seen before read `k`, nothing after it matters: what
      later chunks would have held, and how the body would have ended, leave
      the output unchanged. */
  lemma AbortIgnoresLater(chunks: seq<string>, more: seq<string>, e: Ending, e': Ending, k: nat, parse: Parser)
    requires k <= |chunks|
    ensures Fragments(Streamed(chunks, e), Some(k), parse)
         == Fragments(Streamed(chunks[..k] + more, e'), Some(k), parse)
  {
    var later := chunks[..k] + more;
    assert later[..k] == chunks[..k];
  }

  /** Aborting only cuts the output short: it is a prefix of what the
      unaborted call yields. */
  lemma AbortTruncates(chunks: seq<string>, e: Ending, k: nat, parse: Parser)
    ensures Fragments(Streamed(chunks, e), Some(k), parse) <= Fragments(Streamed(chunks, e), None, parse)
  {
    var n := |chunks|;
    var r := Reads(n, Some(k));
    CompleteGrows(chunks, r, n);
    var a, b := Complete(chunks, r), Complete(chunks, n);
    assert b == a + b[|a|..];
    ScanAppend(a, b[|a|..], parse);
  }

  /** A trailing line the body does not terminate is never parsed: however
      the text is cut into chunks, only the terminated lines are scanned. */
  lemma TailNeverParsed(chunks: seq<string>, lines: seq<string>, tail: string, parse: Parser)
    requires forall i :: 0 <= i < |lines| ==> '\n' !in lines[i]
    requires '\n' !in tail
    requires Concat(chunks) == Terminated(lines) + tail
    ensures Fragments(Streamed(chunks, Closed), None, parse) == Scan(lines, parse).out
  {
    var all := lines + [tail];
    assert Init(all) == lines && Last(all) == tail;
    TerminatedJoin(all);
    SplitJoin(all);
    assert chunks[..|chunks|] == chunks;
  }
}
