/** Newline framing of the model's streamed reply: `buffer.split('\n')`, the
    complete lines that go out after each read and the unterminated piece that
    stays in the buffer. */
module Framing {
  import opened Strings

  /** `s.split('\n')`: the pieces of `s` between newlines, in order. There is
      always at least one piece, and no piece holds a newline. */
  function Split(s: string): (r: seq<string>)
    ensures |r| >= 1
    ensures forall i :: 0 <= i < |r| ==> '\n' !in r[i]
    decreases |s|
  {
    if s == [] then [""]
    else if s[0] == '\n' then [""] + Split(s[1..])
    else
      var t := Split(s[1..]);
      [[s[0]] + t[0]] + t[1..]
  }

  /** The pieces put back together with a newline between neighbours. */
  function Join(ls: seq<string>): string
    requires |ls| >= 1
  {
    if |ls| == 1 then ls[0] else ls[0] + "\n" + Join(ls[1..])
  }

  /** Lines each followed by its newline, as they stood in the stream. */
  function Terminated(ls: seq<string>): string {
    if ls == [] then "" else ls[0] + "\n" + Terminated(ls[1..])
  }

  function Init(ls: seq<string>): seq<string>
    requires |ls| >= 1
  {
    ls[..|ls| - 1]
  }

  function Last(ls: seq<string>): string
    requires |ls| >= 1
  {
    ls[|ls| - 1]
  }

  /** Splitting undoes nothing: the pieces joined by newlines give `s` back. */
  lemma {:induction false} JoinSplit(s: string)
    ensures Join(Split(s)) == s
    decreases |s|
  {
    if s == [] {
    } else if s[0] == '\n' {
      var t := Split(s[1..]);
      JoinSplit(s[1..]);
      assert Split(s)[1..] == t;
      assert s == "" + "\n" + s[1..];
    } else {
      var t := Split(s[1..]);
      JoinSplit(s[1..]);
      var r := Split(s);
      if |t| == 1 {
        assert s == [s[0]] + s[1..];
      } else {
        assert r[1..] == t[1..];
        assert Join(t) == t[0] + "\n" + Join(t[1..]);
        assert s == [s[0]] + s[1..];
      }
    }
  }

  /** Pieces free of newlines are exactly what splitting their join gives. */
  lemma {:induction false} SplitJoin(ls: seq<string>)
    requires |ls| >= 1
    requires forall i :: 0 <= i < |ls| ==> '\n' !in ls[i]
    ensures Split(Join(ls)) == ls
    decreases |ls|
  {
    NoNewline(ls[0]);
    if |ls| > 1 {
      var rest := ls[1..];
      SplitJoin(rest);
      var j := Join(rest);
      var nj := "\n" + j;
      assert Join(ls) == ls[0] + nj;
      assert nj[0] == '\n' && nj[1..] == j;
      assert Split(nj) == [""] + rest;
      SplitAppend(ls[0], nj);
      assert Init([ls[0]]) == [] && Last([ls[0]]) == ls[0];
      assert ls[0] + "" == ls[0];
      assert ls == [ls[0]] + rest;
    }
  }

  /** A string with no newline is a single piece. */
  lemma {:induction false} NoNewline(s: string)
    requires '\n' !in s
    ensures Split(s) == [s]
    decreases |s|
  {
    if s != [] {
      NoNewline(s[1..]);
      assert [s[0]] + s[1..] == s;
    }
  }

  /** The pieces of `x + y` from those of `x` and of `y`: the last piece of
      `x` and the first piece of `y` fuse into one. */
  function Fuse(sx: seq<string>, sy: seq<string>): seq<string>
    requires |sx| >= 1 && |sy| >= 1
  {
    Init(sx) + [Last(sx) + sy[0]] + sy[1..]
  }

  /** How splitting distributes over concatenation. */
  lemma {:induction false} SplitAppend(x: string, y: string)
    ensures Split(x + y) == Fuse(Split(x), Split(y))
    decreases |x|
  {
    var sy := Split(y);
    if x == [] {
      assert x + y == y;
      FuseEmpty(sy);
    } else {
      var xy := x + y;
      assert xy[0] == x[0];
      assert xy[1..] == x[1..] + y;
      SplitAppend(x[1..], y);
      var t := Split(x[1..]);
      if x[0] == '\n' {
        FuseCons("", t, sy);
      } else {
        FusePrepend(x[0], t, sy);
      }
    }
  }

  lemma FuseEmpty(sy: seq<string>)
    requires |sy| >= 1
    ensures Fuse([""], sy) == sy
  {
    assert "" + sy[0] == sy[0];
    assert [sy[0]] + sy[1..] == sy;
  }

  lemma FuseCons(h: string, t: seq<string>, sy: seq<string>)
    requires |t| >= 1 && |sy| >= 1
    ensures Fuse([h] + t, sy) == [h] + Fuse(t, sy)
  {
    var ht := [h] + t;
    assert Init(ht) == [h] + Init(t);
    assert Last(ht) == Last(t);
  }

  lemma FusePrepend(c: char, t: seq<string>, sy: seq<string>)
    requires |t| >= 1 && |sy| >= 1
    ensures var f := Fuse(t, sy);
      Fuse([[c] + t[0]] + t[1..], sy) == [[c] + f[0]] + f[1..]
  {
    var s := [[c] + t[0]] + t[1..];
    var f := Fuse(t, sy);
    if |t| == 1 {
      assert Init(s) == [] && Last(s) == [c] + t[0];
      assert f == [t[0] + sy[0]] + sy[1..];
      assert ([c] + t[0]) + sy[0] == [c] + (t[0] + sy[0]);
    } else {
      assert Init(s) == [[c] + t[0]] + Init(t)[1..];
      assert Last(s) == Last(t);
      assert f[0] == t[0];
      assert f[1..] == Init(t)[1..] + [Last(t) + sy[0]] + sy[1..];
    }
  }

  /** Only the last piece of `x` takes part in the fusion. */
  lemma FuseLast(sx: seq<string>, sy: seq<string>)
    requires |sx| >= 1 && |sy| >= 1
    ensures Fuse(sx, sy) == Init(sx) + Fuse([Last(sx)], sy)
  {
    assert Init([Last(sx)]) == [];
  }

  /** One read: the chunk is added to the buffer, the buffer is split, the
      complete lines go out and the last piece stays behind. */
  datatype Fed = Fed(lines: seq<string>, buffer: string)

  function Feed(buffer: string, chunk: string): Fed {
    var parts := Split(buffer + chunk);
    Fed(Init(parts), Last(parts))
  }

  /** After a read the buffer holds no newline, and the lines sent on, each
      with its newline, followed by the buffer, are the old buffer plus the
      chunk: no character is lost, added or reordered. */
  lemma FeedKeepsText(buffer: string, chunk: string)
    ensures var f := Feed(buffer, chunk);
      && '\n' !in f.buffer
      && (forall i :: 0 <= i < |f.lines| ==> '\n' !in f.lines[i])
      && Terminated(f.lines) + f.buffer == buffer + chunk
  {
    var parts := Split(buffer + chunk);
    JoinSplit(buffer + chunk);
    TerminatedJoin(parts);
  }

  /** Joining by newlines is terminating all but the last piece. */
  lemma {:induction false} TerminatedJoin(ls: seq<string>)
    requires |ls| >= 1
    ensures Join(ls) == Terminated(Init(ls)) + Last(ls)
    decreases |ls|
  {
    if |ls| > 1 {
      TerminatedJoin(ls[1..]);
      assert Init(ls)[1..] == Init(ls[1..]);
      assert Init(ls)[0] == ls[0];
      AppendAssoc(ls[0] + "\n", Terminated(Init(ls[1..])), Last(ls));
    }
  }

  /** The chunk boundaries do not matter: feeding one more chunk after the
      text `x` sends on exactly the complete lines that splitting the whole
      text at once adds, and keeps the same last piece. */
  lemma FeedMore(x: string, chunk: string)
    ensures var f := Feed(Last(Split(x)), chunk);
      && Init(Split(x + chunk)) == Init(Split(x)) + f.lines
      && Last(Split(x + chunk)) == f.buffer
  {
    var sx, sc := Split(x), Split(chunk);
    SplitAppend(x, chunk);
    NoNewline(Last(sx));
    SplitAppend(Last(sx), chunk);
    FuseLast(sx, sc);
    InitLast(Init(sx), Fuse([Last(sx)], sc));
  }

  lemma InitLast(a: seq<string>, b: seq<string>)
    requires |b| >= 1
    ensures Init(a + b) == a + Init(b) && Last(a + b) == Last(b)
  {
    assert (a + b)[..|a + b| - 1] == a + b[..|b| - 1];
  }

  /** The whole stream, read chunk by chunk from an empty buffer. */
  function FeedAll(chunks: seq<string>): Fed
    decreases |chunks|
  {
    if chunks == [] then Fed([], "")
    else
      var f := FeedAll(chunks[..|chunks| - 1]);
      var g := Feed(f.buffer, chunks[|chunks| - 1]);
      Fed(f.lines + g.lines, g.buffer)
  }

  /** However the text is cut into chunks, the lines sent on are the complete
      lines of the whole text and the buffer is its unterminated tail. */
  lemma {:induction false} FeedAllSplits(chunks: seq<string>)
    ensures FeedAll(chunks) == Fed(Init(Split(Concat(chunks))), Last(Split(Concat(chunks))))
    decreases |chunks|
  {
    if chunks != [] {
      var init := chunks[..|chunks| - 1];
      FeedAllSplits(init);
      FeedMore(Concat(init), chunks[|chunks| - 1]);
    }
  }
}
