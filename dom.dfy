/** The captured page as a value: the tree cheerio builds from the rendered
    HTML. Element nodes carry a tag, an ordered attribute map and children;
    text nodes carry their characters. A document is the children of the
    (never matched) document node. This module gives positions in the tree
    (paths), document order, selector queries (`$(sel)`, `.first()`,
    `.text()`) and `.remove()` of every match, as functions on values. */
module Dom {
  import opened Wrappers
  import opened Strings
  import opened Attributes

  datatype Tree =
    | Element(tag: string, attrs: seq<Attr>, children: seq<Tree>)
    | Text(data: string)

  /** Selector matching, supplied by the selector engine: does selector `sel`
      match an element with this tag and these attributes? Every selector the
      capture route uses is a type, class, id or attribute selector, so
      matching depends on the element's own tag and attributes only. */
  type Matcher = (string, string, seq<Attr>) -> bool

  predicate Matches(m: Matcher, sel: string, t: Tree) {
    t.Element? && m(sel, t.tag, t.attrs)
  }

  /** Every element in the forest has a duplicate-free attribute map. */
  predicate WellFormedIn(ks: seq<Tree>)
    decreases ks
  {
    forall i :: 0 <= i < |ks| ==>
      ks[i].Element? ==> Unique(ks[i].attrs) && WellFormedIn(ks[i].children)
  }

  // ---------------------------------------------------------------- paths

  /** A path `[i, j, ...]` names the j-th child of the i-th tree of a forest, etc. */
  type Path = seq<nat>

  predicate ValidIn(ks: seq<Tree>, p: Path)
    decreases ks
  {
    |p| > 0 && p[0] < |ks| &&
    (|p| == 1 || (ks[p[0]].Element? && ValidIn(ks[p[0]].children, p[1..])))
  }

  function AtIn(ks: seq<Tree>, p: Path): Tree
    requires ValidIn(ks, p)
    decreases ks
  {
    if |p| == 1 then ks[p[0]] else AtIn(ks[p[0]].children, p[1..])
  }

  /** The forest with the tree at `p` replaced by `s`. */
  function ReplaceIn(ks: seq<Tree>, p: Path, s: Tree): (r: seq<Tree>)
    requires ValidIn(ks, p)
    ensures |r| == |ks|
    decreases ks
  {
    var t := ks[p[0]];
    if |p| == 1 then ks[p[0] := s]
    else ks[p[0] := Element(t.tag, t.attrs, ReplaceIn(t.children, p[1..], s))]
  }

  /** Document order: `q` comes strictly before `p` when it is an ancestor of
      `p` or lies in an earlier sibling subtree of one of `p`'s ancestors. */
  predicate Precedes(q: Path, p: Path)
    decreases |p|
  {
    |p| > 0 && (|q| == 0 || q[0] < p[0] || (q[0] == p[0] && Precedes(q[1..], p[1..])))
  }

  // ---------------------------------------------------------------- queries

  /** No element of the forest matches `sel`. */
  predicate NoneMatch(ks: seq<Tree>, m: Matcher, sel: string)
    decreases ks
  {
    forall i :: 0 <= i < |ks| ==>
      !Matches(m, sel, ks[i]) && (ks[i].Element? ==> NoneMatch(ks[i].children, m, sel))
  }

  /** `$(sel).first()`: the position of the first element of the forest, in
      document order, that matches `sel`. */
  function FirstIn(ks: seq<Tree>, m: Matcher, sel: string): (r: Option<Path>)
    ensures r.Some? ==> ValidIn(ks, r.value) && Matches(m, sel, AtIn(ks, r.value))
    ensures r.None? <==> NoneMatch(ks, m, sel)
    decreases ks
  {
    if ks == [] then None
    else if Matches(m, sel, ks[0]) then Some([0])
    else
      var inner := if ks[0].Element? then FirstIn(ks[0].children, m, sel) else None;
      if inner.Some? then
        assert AtIn(ks, [0] + inner.value) == AtIn(ks[0].children, inner.value);
        Some([0] + inner.value)
      else
        var rest := FirstIn(ks[1..], m, sel);
        if rest.None? then
          assert NoneMatch(ks, m, sel) by {
            forall i | 0 <= i < |ks| ensures !Matches(m, sel, ks[i]) && (ks[i].Element? ==> NoneMatch(ks[i].children, m, sel)) {
              if i > 0 { assert ks[i] == ks[1..][i - 1]; }
            }
          }
          None
        else
          var p := [rest.value[0] + 1] + rest.value[1..];
          assert p[1..] == rest.value[1..] && ks[p[0]] == ks[1..][rest.value[0]];
          assert AtIn(ks, p) == AtIn(ks[1..], rest.value);
          Some(p)
  }

  /** `$(sel).text()`: the text of every match, in document order. */
  function MatchText(ks: seq<Tree>, m: Matcher, sel: string): string
    decreases ks
  {
    if ks == [] then ""
    else
      (if Matches(m, sel, ks[0]) then TextOf(ks[0]) else "")
      + (if ks[0].Element? then MatchText(ks[0].children, m, sel) else "")
      + MatchText(ks[1..], m, sel)
  }

  /** `.text()` of one node: its descendant text, in document order. */
  function TextOf(t: Tree): string
    decreases t
  {
    match t
    case Text(d) => d
    case Element(_, _, cs) => TextIn(cs)
  }

  function TextIn(ks: seq<Tree>): string
    decreases ks
  {
    if ks == [] then "" else TextOf(ks[0]) + TextIn(ks[1..])
  }

  // ---------------------------------------------------------------- removal

  /** `$(sel).remove()`: every element matching `sel` is detached with its
      subtree. Matching looks at an element's own tag and attributes, so
      removing top-down gives the same forest as collecting all matches
      first and removing them afterwards. */
  function PruneIn(ks: seq<Tree>, m: Matcher, sel: string): seq<Tree>
    decreases ks
  {
    if ks == [] then []
    else (if Matches(m, sel, ks[0]) then [] else [PruneTree(ks[0], m, sel)]) + PruneIn(ks[1..], m, sel)
  }

  function PruneTree(t: Tree, m: Matcher, sel: string): Tree
    decreases t
  {
    match t
    case Text(_) => t
    case Element(g, a, cs) => Element(g, a, PruneIn(cs, m, sel))
  }

  /** `REMOVE_SELECTORS.forEach(sel => $(sel).remove())`. */
  function PruneAll(ks: seq<Tree>, m: Matcher, sels: seq<string>): seq<Tree>
    decreases |sels|
  {
    if sels == [] then ks else PruneAll(PruneIn(ks, m, sels[0]), m, sels[1..])
  }

  // ---------------------------------------------------------------- lemmas

  /** A forest in which nothing matches has no matching node at any position. */
  lemma {:induction false} NoneMatchAt(ks: seq<Tree>, m: Matcher, sel: string, q: Path)
    requires NoneMatch(ks, m, sel) && ValidIn(ks, q)
    ensures !Matches(m, sel, AtIn(ks, q))
    decreases ks
  {
    if |q| > 1 {
      NoneMatchAt(ks[q[0]].children, m, sel, q[1..]);
    }
  }

  /** `.first()` really is first: no node before the one it returns, in
      document order, matches the selector. */
  lemma {:induction false} FirstInIsFirst(ks: seq<Tree>, m: Matcher, sel: string, q: Path)
    requires FirstIn(ks, m, sel).Some?
    requires ValidIn(ks, q) && Precedes(q, FirstIn(ks, m, sel).value)
    ensures !Matches(m, sel, AtIn(ks, q))
    decreases ks
  {
    if !Matches(m, sel, ks[0]) && q[0] == 0 && |q| > 1 {
      var inner := FirstIn(ks[0].children, m, sel);
      if inner.Some? {
        assert FirstIn(ks, m, sel).value == [0] + inner.value;
        FirstInIsFirst(ks[0].children, m, sel, q[1..]);
      } else {
        NoneMatchAt(ks[0].children, m, sel, q[1..]);
      }
    } else if !Matches(m, sel, ks[0]) && q[0] > 0 {
      var rest := FirstIn(ks[1..], m, sel).value;
      var q' := [q[0] - 1] + q[1..];
      assert q'[1..] == q[1..] && ks[1..][q'[0]] == ks[q[0]];
      assert AtIn(ks[1..], q') == AtIn(ks, q);
      FirstInIsFirst(ks[1..], m, sel, q');
    }
  }

  /** After `$(sel).remove()` nothing in the forest matches `sel`. */
  lemma {:induction false} PruneRemovesAll(ks: seq<Tree>, m: Matcher, sel: string)
    ensures NoneMatch(PruneIn(ks, m, sel), m, sel)
    decreases ks
  {
    if ks != [] {
      PruneRemovesAll(ks[1..], m, sel);
      if ks[0].Element? {
        PruneRemovesAll(ks[0].children, m, sel);
      }
      NoneMatchConcat((if Matches(m, sel, ks[0]) then [] else [PruneTree(ks[0], m, sel)]), PruneIn(ks[1..], m, sel), m, sel);
    }
  }

  lemma NoneMatchConcat(a: seq<Tree>, b: seq<Tree>, m: Matcher, sel: string)
    requires NoneMatch(a, m, sel) && NoneMatch(b, m, sel)
    ensures NoneMatch(a + b, m, sel)
  {
    forall i | 0 <= i < |a + b|
      ensures !Matches(m, sel, (a + b)[i]) && ((a + b)[i].Element? ==> NoneMatch((a + b)[i].children, m, sel))
    {
      if i >= |a| { assert (a + b)[i] == b[i - |a|]; }
    }
  }

  /** Removal by a later selector never brings back a match of an earlier one:
      it only detaches subtrees. */
  lemma {:induction false} PruneKeepsNoneMatch(ks: seq<Tree>, m: Matcher, sel: string, other: string)
    requires NoneMatch(ks, m, sel)
    ensures NoneMatch(PruneIn(ks, m, other), m, sel)
    decreases ks
  {
    if ks != [] {
      assert NoneMatch(ks[1..], m, sel) by {
        forall i | 0 <= i < |ks[1..]| ensures !Matches(m, sel, ks[1..][i]) && (ks[1..][i].Element? ==> NoneMatch(ks[1..][i].children, m, sel)) {
          assert ks[1..][i] == ks[i + 1];
        }
      }
      PruneKeepsNoneMatch(ks[1..], m, sel, other);
      if ks[0].Element? {
        PruneKeepsNoneMatch(ks[0].children, m, sel, other);
      }
      NoneMatchConcat((if Matches(m, other, ks[0]) then [] else [PruneTree(ks[0], m, other)]), PruneIn(ks[1..], m, other), m, sel);
    }
  }

  /** After the whole blacklist pass no element matches any blacklisted selector. */
  lemma {:induction false} PruneAllRemovesAll(ks: seq<Tree>, m: Matcher, sels: seq<string>, k: nat)
    requires k < |sels|
    ensures NoneMatch(PruneAll(ks, m, sels), m, sels[k])
    decreases |sels|
  {
    if k == 0 {
      PruneRemovesAll(ks, m, sels[0]);
      PruneAllKeepsNoneMatch(PruneIn(ks, m, sels[0]), m, sels[1..], sels[0]);
    } else {
      PruneAllRemovesAll(PruneIn(ks, m, sels[0]), m, sels[1..], k - 1);
    }
  }

  lemma {:induction false} PruneAllKeepsNoneMatch(ks: seq<Tree>, m: Matcher, sels: seq<string>, sel: string)
    requires NoneMatch(ks, m, sel)
    ensures NoneMatch(PruneAll(ks, m, sels), m, sel)
    decreases |sels|
  {
    if sels != [] {
      PruneKeepsNoneMatch(ks, m, sel, sels[0]);
      PruneAllKeepsNoneMatch(PruneIn(ks, m, sels[0]), m, sels[1..], sel);
    }
  }

  /** Removal leaves a forest without matches exactly as it was. */
  lemma {:induction false} PruneNoMatchIsIdentity(ks: seq<Tree>, m: Matcher, sel: string)
    requires NoneMatch(ks, m, sel)
    ensures PruneIn(ks, m, sel) == ks
    decreases ks
  {
    if ks != [] {
      assert NoneMatch(ks[1..], m, sel) by {
        forall i | 0 <= i < |ks[1..]| ensures !Matches(m, sel, ks[1..][i]) && (ks[1..][i].Element? ==> NoneMatch(ks[1..][i].children, m, sel)) {
          assert ks[1..][i] == ks[i + 1];
        }
      }
      PruneNoMatchIsIdentity(ks[1..], m, sel);
      if ks[0].Element? {
        PruneNoMatchIsIdentity(ks[0].children, m, sel);
      }
      assert ks == [ks[0]] + ks[1..];
    }
  }

  lemma {:induction false} PruneInAppend(x: seq<Tree>, y: seq<Tree>, m: Matcher, sel: string)
    ensures PruneIn(x + y, m, sel) == PruneIn(x, m, sel) + PruneIn(y, m, sel)
    decreases |x|
  {
    if x == [] {
      assert x + y == y;
    } else {
      assert (x + y)[0] == x[0] && (x + y)[1..] == x[1..] + y;
      PruneInAppend(x[1..], y, m, sel);
    }
  }

  /** Pruning a forest one more tree at the end. */
  lemma PruneInSnoc(xs: seq<Tree>, x: Tree, m: Matcher, sel: string)
    ensures PruneIn(xs + [x], m, sel) ==
      PruneIn(xs, m, sel) + (if Matches(m, sel, x) then [] else [PruneTree(x, m, sel)])
  {
    PruneInAppend(xs, [x], m, sel);
    assert [x][1..] == [];
  }

  /** One more tree visited by `$(sel).remove()`. */
  lemma PruneInStep(ts: seq<Tree>, i: nat, done: seq<Tree>, k: bool, t: Tree, m: Matcher, sel: string)
    requires i < |ts| && done == PruneIn(ts[..i], m, sel)
    requires k <==> !Matches(m, sel, ts[i])
    requires k ==> t == PruneTree(ts[i], m, sel)
    ensures (if k then done + [t] else done) == PruneIn(ts[..i + 1], m, sel)
  {
    assert ts[..i + 1] == ts[..i] + [ts[i]];
    PruneInSnoc(ts[..i], ts[i], m, sel);
  }

  /** One more selector of a `forEach` over selectors. */
  lemma PruneAllStep(ks: seq<Tree>, m: Matcher, sels: seq<string>, i: nat)
    requires i < |sels|
    ensures PruneAll(PruneIn(ks, m, sels[i]), m, sels[i + 1..]) == PruneAll(ks, m, sels[i..])
  {
    assert sels[i..][0] == sels[i] && sels[i..][1..] == sels[i + 1..];
  }

  /** After replacing the tree at `p`, the path still leads to a tree, and it
      is the replacement. */
  lemma {:induction false} ReplaceInAtIn(ks: seq<Tree>, p: Path, s: Tree)
    requires ValidIn(ks, p)
    ensures ValidIn(ReplaceIn(ks, p, s), p) && AtIn(ReplaceIn(ks, p, s), p) == s
    decreases ks
  {
    if |p| > 1 {
      ReplaceInAtIn(ks[p[0]].children, p[1..], s);
    }
  }

  /** A tree reached by a path in a well-formed forest is well formed. */
  lemma {:induction false} AtInWellFormed(ks: seq<Tree>, p: Path)
    requires WellFormedIn(ks) && ValidIn(ks, p) && AtIn(ks, p).Element?
    ensures Unique(AtIn(ks, p).attrs) && WellFormedIn(AtIn(ks, p).children)
    decreases ks
  {
    if |p| > 1 {
      AtInWellFormed(ks[p[0]].children, p[1..]);
    }
  }

  /** Removal keeps a forest well formed. */
  lemma {:induction false} PruneInWellFormed(ks: seq<Tree>, m: Matcher, sel: string)
    requires WellFormedIn(ks)
    ensures WellFormedIn(PruneIn(ks, m, sel))
    decreases ks
  {
    if ks != [] {
      assert WellFormedIn(ks[1..]) by {
        forall i | 0 <= i < |ks[1..]| ensures ks[1..][i] == ks[i + 1] {}
      }
      PruneInWellFormed(ks[1..], m, sel);
      if ks[0].Element? {
        PruneInWellFormed(ks[0].children, m, sel);
      }
      var h: seq<Tree> := if Matches(m, sel, ks[0]) then [] else [PruneTree(ks[0], m, sel)];
      var r := PruneIn(ks[1..], m, sel);
      forall i | 0 <= i < |h + r|
        ensures (h + r)[i].Element? ==> Unique((h + r)[i].attrs) && WellFormedIn((h + r)[i].children)
      {
        if i >= |h| { assert (h + r)[i] == r[i - |h|]; }
      }
    }
  }

  lemma {:induction false} PruneAllWellFormed(ks: seq<Tree>, m: Matcher, sels: seq<string>)
    requires WellFormedIn(ks)
    ensures WellFormedIn(PruneAll(ks, m, sels))
    decreases |sels|
  {
    if sels != [] {
      PruneInWellFormed(ks, m, sels[0]);
      PruneAllWellFormed(PruneIn(ks, m, sels[0]), m, sels[1..]);
    }
  }

  /** Replacing below position `p[0]` changes that tree of the forest only. */
  lemma ReplaceInAt(ks: seq<Tree>, p: Path, s: Tree)
    requires ValidIn(ks, p)
    ensures ReplaceIn(ks, p, s) == ks[p[0] := ReplaceIn(ks, p, s)[p[0]]]
  {
  }

  lemma TakeSnoc<T>(s: seq<T>, i: nat)
    requires i < |s|
    ensures s[..i + 1] == s[..i] + [s[i]]
  {
  }
}
