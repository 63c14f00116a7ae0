/** The tree cheerio builds, as objects updated in place: every node owns its
    children (`Repr` is the set of objects it owns) and carries, as a ghost,
    the value of the subtree it stands for. The methods are the in-place
    operations of the capture route: `$(sel).remove()`, the recursive
    `deepClean` and the walk over `$main.children()`, each proved to leave the
    tree equal to the function on values in modules Dom and Sanitize. */
module Elements {
  import opened Wrappers
  import opened Strings
  import opened Attributes
  import opened Dom
  import opened Sanitize

  /** The values the nodes stand for, in order. */
  ghost function ModelsOf(ns: seq<Node>): (r: seq<Tree>)
    reads ns
    ensures |r| == |ns|
    ensures forall i :: 0 <= i < |ns| ==> r[i] == ns[i].model
    decreases |ns|
  {
    if ns == [] then [] else [ns[0].model] + ModelsOf(ns[1..])
  }

  /** What a walk does to each node it visits: the `deepClean` visit of the
      capture route, or the removal of the matches of one selector. */
  datatype Pass = Clean(base: string, resolve: Resolver) | Prune(m: Matcher, sel: string)

  /** The value a visited tree takes, or None when the visit removes it. */
  function Outcome(pass: Pass, t: Tree): Option<Tree> {
    match pass
    case Clean(base, resolve) => CleanTree(t, base, resolve)
    case Prune(m, sel) => if Matches(m, sel, t) then None else Some(PruneTree(t, m, sel))
  }

  /** The forest a walk leaves behind. */
  function Over(pass: Pass, ks: seq<Tree>): seq<Tree> {
    match pass
    case Clean(base, resolve) => CleanIn(ks, base, resolve)
    case Prune(m, sel) => PruneIn(ks, m, sel)
  }

  /** One more tree visited by a walk. */
  lemma OverStep(pass: Pass, ts: seq<Tree>, i: nat, done: seq<Tree>, k: bool, t: Tree)
    requires i < |ts| && done == Over(pass, ts[..i])
    requires k <==> Outcome(pass, ts[i]).Some?
    requires k ==> t == Outcome(pass, ts[i]).value
    ensures (if k then done + [t] else done) == Over(pass, ts[..i + 1])
  {
    match pass
    case Clean(base, resolve) => CleanInStep(ts, i, done, k, t, base, resolve);
    case Prune(m, sel) => PruneInStep(ts, i, done, k, t, m, sel);
  }

  class Node {
    var isText: bool
    var tag: string
    var attrs: seq<Attr>
    var data: string
    var children: seq<Node>
    ghost var model: Tree
    ghost var Repr: set<object>

    ghost predicate Valid()
      reads this, Repr
      decreases Repr
    {
      && this in Repr
      && (forall i :: 0 <= i < |children| ==>
            && children[i] in Repr
            && children[i].Repr <= Repr
            && this !in children[i].Repr
            && children[i].Valid())
      && (forall i, j :: 0 <= i < j < |children| ==> children[i].Repr !! children[j].Repr)
      && (isText ==> children == [] && model == Text(data))
      && (!isText ==> Unique(attrs) && model == Element(tag, attrs, ModelsOf(children)))
    }

    /** A text node. */
    constructor Leaf(d: string)
      ensures Valid() && fresh(Repr) && model == Text(d)
    {
      isText, tag, attrs, data, children := true, "", [], d, [];
      model := Text(d);
      Repr := {this};
    }

    /** An element over nodes that each own a separate set of objects. */
    constructor Branch(g: string, a: seq<Attr>, kids: seq<Node>, ghost owned: set<object>)
      requires Unique(a)
      requires forall j :: 0 <= j < |kids| ==> kids[j] in owned && kids[j].Repr <= owned && kids[j].Valid()
      requires forall j, k :: 0 <= j < k < |kids| ==> kids[j].Repr !! kids[k].Repr
      ensures Valid() && Repr == {this} + owned
      ensures model == Element(g, a, ModelsOf(kids))
    {
      isText, tag, attrs, data, children := false, g, a, "", kids;
      model := Element(g, a, ModelsOf(kids));
      Repr := {this} + owned;
    }

    /** `cheerio.load`: the nodes of a parsed tree. */
    static method Build(t: Tree) returns (n: Node)
      requires WellFormedIn([t])
      ensures n.Valid() && fresh(n.Repr) && n.model == t
      decreases t, 1
    {
      assert [t][0] == t;
      if t.Text? {
        n := new Node.Leaf(t.data);
      } else {
        var kids, owned := BuildAll(t.children);
        assert ModelsOf(kids) == t.children;
        n := new Node.Branch(t.tag, t.attrs, kids, owned);
      }
    }

    /** The nodes of a forest, each owning a fresh, separate set of objects. */
    static method BuildAll(cs: seq<Tree>) returns (kids: seq<Node>, ghost owned: set<object>)
      requires WellFormedIn(cs)
      ensures |kids| == |cs| && fresh(owned)
      ensures forall j :: 0 <= j < |cs| ==>
        kids[j] in owned && kids[j].Repr <= owned && kids[j].Valid() && kids[j].model == cs[j]
      ensures forall j, k :: 0 <= j < k < |cs| ==> kids[j].Repr !! kids[k].Repr
      decreases cs, 0
    {
      kids := [];
      owned := {};
      var i := 0;
      while i < |cs|
        invariant 0 <= i <= |cs| && |kids| == i
        invariant forall j :: 0 <= j < i ==>
          kids[j] in owned && kids[j].Repr <= owned && kids[j].Valid() && kids[j].model == cs[j]
        invariant forall j, k :: 0 <= j < k < i ==> kids[j].Repr !! kids[k].Repr
        invariant fresh(owned)
      {
        assert WellFormedIn([cs[i]]) by { assert [cs[i]][0] == cs[i]; }
        var n := Build(cs[i]);
        kids := kids + [n];
        owned := owned + n.Repr;
        i := i + 1;
      }
    }
  
    /** The value the subtree stands for, read off the nodes. */
    function Snapshot(): (t: Tree)
      requires Valid()
      reads Repr
      ensures t == model
      decreases Repr, 1
    {
      if isText then Text(data) else Element(tag, attrs, SnapshotAll(children, Repr - {this}))
    }

    /** The values of nodes owning separate parts of `owned`, in order. */
    static function SnapshotAll(ns: seq<Node>, ghost owned: set<object>): (ts: seq<Tree>)
      requires forall j :: 0 <= j < |ns| ==> ns[j].Valid() && ns[j].Repr <= owned
      reads owned
      ensures ts == ModelsOf(ns)
      decreases owned, 2, |ns|
    {
      if ns == [] then [] else [ns[0].Snapshot()] + SnapshotAll(ns[1..], owned)
    }

    /** The attribute part of one `deepClean` visit: `removeAttr('style')`,
        the loop over the remaining keys, then the anchor or image branch.
        Returns false when the image branch removes the element. */
    method CleanAttributes(base: string, resolve: Resolver) returns (kept: bool)
      requires !isText && Unique(attrs)
      modifies this`attrs
      ensures kept <==> CleanAttrs(tag, old(attrs), base, resolve).Some?
      ensures kept ==> attrs == CleanAttrs(tag, old(attrs), base, resolve).value
      ensures Unique(attrs)
    {
      StripFacts(attrs);
      StripUnsafe();
      if tag == "a" {
        RewriteLink(base, resolve);
      }
      kept := true;
      if tag == "img" {
        kept := RewriteImage(base, resolve);
        if !kept {
          return;
        }
      }
      CleanAttrsNames(tag, old(attrs), base, resolve);
      var style := Get(attrs, "style").GetOr("");
      if style != "" {
        // The `url()` rewrite of the style attribute: unreachable, since
        // `style` was removed first and no branch above sets it.
        assert false;
      }
    }

    /** `removeAttr('style')`, then the loop over the keys that remain,
        removing each one that is an event handler or `srcdoc` or whose
        current value mentions `javascript:` or starts with `data:`. */
    method StripUnsafe()
      requires Unique(attrs)
      modifies this`attrs
      ensures attrs == StripAttrs(old(attrs))
    {
      attrs := Remove(attrs, "style");
      var a0 := attrs;
      RemoveUnique(old(attrs), "style");
      var i := 0;
      while i < |a0|
        invariant 0 <= i <= |a0|
        invariant attrs == KeepSafe(a0[..i]) + a0[i..]
      {
        VisitKey(a0, i);
        i := i + 1;
      }
      assert a0[..|a0|] == a0;
    }

    /** One turn of the loop: the key's current value is read and the key
        removed when the pair is dangerous. */
    method VisitKey(a0: seq<Attr>, i: nat)
      requires Unique(a0) && i < |a0| && attrs == KeepSafe(a0[..i]) + a0[i..]
      modifies this`attrs
      ensures attrs == KeepSafe(a0[..i + 1]) + a0[i + 1..]
    {
      KeepSafeStep(a0, i);
      var k := a0[i].name;
      var v := Get(attrs, k).value;
      if Dangerous(Attr(k, v)) {
        attrs := Remove(attrs, k);
      }
    }

    /** The anchor branch: an `href` that is not empty and does not start
        with `http`, `#` or `mailto:` is made absolute, or removed when the
        URL parser rejects it. */
    method RewriteLink(base: string, resolve: Resolver)
      modifies this`attrs
      ensures attrs == RewriteHref(old(attrs), base, resolve)
    {
      var href := Get(attrs, "href").GetOr("");
      if href != "" && !StartsWith(href, "http") && !StartsWith(href, "#") && !StartsWith(href, "mailto:") {
        match resolve(href, base) {
          case Some(u) => attrs := Set(attrs, "href", u);
          case None => attrs := Remove(attrs, "href");
        }
      }
    }

    /** The image branch: a `src` that is not empty and does not start with
        `http` or `data:` is made absolute; when the URL parser rejects it
        the image is removed (false). A kept image loses `srcset`, `loading`
        and `decoding` and gets `loading="lazy"`. */
    method RewriteImage(base: string, resolve: Resolver) returns (kept: bool)
      modifies this`attrs
      ensures kept <==> RewriteImg(old(attrs), base, resolve).Some?
      ensures attrs == if kept then RewriteImg(old(attrs), base, resolve).value else old(attrs)
    {
      var src := Get(attrs, "src").GetOr("");
      if src != "" && !StartsWith(src, "http") && !StartsWith(src, "data:") {
        match resolve(src, base) {
          case Some(u) => attrs := Set(attrs, "src", u);
          case None => return false;
        }
      }
      attrs := Remove(Remove(Remove(attrs, "srcset"), "loading"), "decoding");
      attrs := Set(attrs, "loading", "lazy");
      return true;
    }
  
    /** `deepClean(node)` on an element: its attributes are cleaned, and
        unless it is an image whose source cannot be resolved (false: the
        element is removed and its subtree is not visited) its children are
        cleaned in turn. */
    method DeepClean(base: string, resolve: Resolver) returns (kept: bool)
      requires Valid() && !isText
      modifies Repr
      ensures Repr == old(Repr)
      ensures kept <==> CleanTree(old(model), base, resolve).Some?
      ensures kept ==> Valid() && model == CleanTree(old(model), base, resolve).value
      decreases Repr, 4
    {
      ghost var a0, cs := attrs, model.children;
      kept := CleanOwnAttributes(base, resolve);
      if kept {
        WalkChildren(Clean(base, resolve));
        CleanTreeElement(tag, a0, cs, base, resolve);
      }
    }

    /** The attribute part of a visit, on a valid element: the element stays
        valid and its value takes the cleaned attributes. */
    method CleanOwnAttributes(base: string, resolve: Resolver) returns (kept: bool)
      requires Valid() && !isText
      modifies this`attrs, this`model
      ensures kept <==> CleanAttrs(tag, old(attrs), base, resolve).Some?
      ensures kept ==> attrs == CleanAttrs(tag, old(attrs), base, resolve).value
      ensures kept ==> Valid() && model == Element(tag, attrs, old(model).children)
    {
      kept := CleanAttributes(base, resolve);
      if kept {
        Refresh();
      }
    }

    /** Brings the value of an element up to date with its attributes. */
    method Refresh()
      requires this in Repr && !isText && Unique(attrs)
      requires forall i :: 0 <= i < |children| ==>
        && children[i] in Repr
        && children[i].Repr <= Repr
        && this !in children[i].Repr
        && children[i].Valid()
      requires forall i, j :: 0 <= i < j < |children| ==> children[i].Repr !! children[j].Repr
      modifies this`model
      ensures Valid() && model == Element(tag, attrs, ModelsOf(children))
    {
      model := Element(tag, attrs, ModelsOf(children));
    }

    /** A walk over the children captured when it starts: each child is
        visited in place by `pass` and the children it does not remove stay,
        in order. With `Clean` this is `$node.children().each(deepClean)`
        (text nodes are not among `.children()` and stay as they are); with
        `Prune` it is `$(sel).remove()` below this node. */
    method WalkChildren(pass: Pass)
      requires Valid() && !isText
      modifies Repr - {this}, this`children, this`model
      ensures Valid() && Repr == old(Repr)
      ensures model == Element(tag, attrs, Over(pass, old(model).children))
      decreases Repr, 3
    {
      var kept, ms := WalkEach(children, Repr - {this}, pass);
      Adopt(kept, ms);
    }

    /** `sels.forEach(sel => $(sel).remove())` below this node: the matches
        of each selector in turn are removed. */
    method RemoveEach(m: Matcher, sels: seq<string>)
      requires Valid() && !isText
      modifies Repr - {this}, this`children, this`model
      ensures Valid() && Repr == old(Repr)
      ensures model == Element(tag, attrs, PruneAll(old(model).children, m, sels))
    {
      var i := 0;
      while i < |sels|
        invariant 0 <= i <= |sels|
        invariant Valid() && Repr == old(Repr)
        invariant PruneAll(model.children, m, sels[i..]) == PruneAll(old(model).children, m, sels)
      {
        ghost var before := model.children;
        WalkChildren(Prune(m, sels[i]));
        PruneAllStep(before, m, sels, i);
        i := i + 1;
      }
    }

    /** The `deepClean` walk over the children of the element at path `p` below
        this node (the selection `$main` of the capture route); every node on
        the way down takes its new value. */
    method CleanAt(p: Path, base: string, resolve: Resolver)
      requires Valid() && !isText
      requires ValidIn(model.children, p) && AtIn(model.children, p).Element?
      modifies Repr - {this}, this`model
      ensures Valid() && Repr == old(Repr)
      ensures model == Element(tag, attrs,
        ReplaceIn(old(model).children, p, CleanMain(AtIn(old(model).children, p), base, resolve)))
      decreases Repr, 10
    {
      ghost var olds := model.children;
      ghost var reprs := seq(|children|, j requires 0 <= j < |children| reads this, children => children[j].Repr);
      var c := children[p[0]];
      Descend(c, children, p, olds, reprs, base, resolve);
      ReplaceInAt(olds, p, CleanMain(AtIn(olds, p), base, resolve));
      Reattach(reprs, olds[p[0] := c.model]);
    }

    /** The step of `CleanAt` into the child `c` at position `p[0]` of
        `sibs`: the target is cleaned below `c`, and its siblings own objects
        apart from it and are left as they were. */
    static method Descend(c: Node, ghost sibs: seq<Node>, p: Path, ghost olds: seq<Tree>,
                          ghost reprs: seq<set<object>>, base: string, resolve: Resolver)
      requires |p| > 0 && p[0] < |sibs| == |olds| == |reprs| && c == sibs[p[0]]
      requires ValidIn(olds, p) && AtIn(olds, p).Element?
      requires forall j :: 0 <= j < |sibs| ==> sibs[j].Valid() && sibs[j].model == olds[j] && sibs[j].Repr == reprs[j]
      requires forall j :: 0 <= j < |sibs| && j != p[0] ==> reprs[j] !! c.Repr
      modifies c.Repr
      ensures forall j :: 0 <= j < |sibs| ==> sibs[j].Valid() && sibs[j].Repr == reprs[j]
      ensures forall j :: 0 <= j < |sibs| && j != p[0] ==> sibs[j].model == olds[j]
      ensures c.model == ReplaceIn(olds, p, CleanMain(AtIn(olds, p), base, resolve))[p[0]]
      decreases c.Repr, 11
    {
      if |p| == 1 {
        c.WalkChildren(Clean(base, resolve));
      } else {
        c.CleanAt(p[1..], base, resolve);
      }
    }

    /** Brings the value of an element up to date with the values of its
        children, each of which owns the objects `reprs` names. */
    method Reattach(ghost reprs: seq<set<object>>, ghost ms: seq<Tree>)
      requires this in Repr && !isText && Unique(attrs) && |reprs| == |ms| == |children|
      requires forall i :: 0 <= i < |children| ==>
        children[i].Repr == reprs[i] && reprs[i] <= Repr - {this} && children[i].Valid() && children[i].model == ms[i]
      requires forall i, j :: 0 <= i < j < |children| ==> reprs[i] !! reprs[j]
      modifies this`model
      ensures Valid() && model == Element(tag, attrs, ms)
    {
      model := Element(tag, attrs, ms);
      ModelsOfIs(children, ms);
    }

    /** Makes `kept` the children of this element. */
    method Adopt(kept: seq<Node>, ghost ms: seq<Tree>)
      requires this in Repr && !isText && Unique(attrs) && |kept| == |ms|
      requires forall t :: 0 <= t < |kept| ==>
        kept[t].Repr <= Repr - {this} && kept[t].Valid() && kept[t].model == ms[t]
      requires forall t, u :: 0 <= t < u < |kept| ==> kept[t].Repr !! kept[u].Repr
      modifies this`children, this`model
      ensures Valid() && children == kept && model == Element(tag, attrs, ms)
    {
      children, model := kept, Element(tag, attrs, ms);
      ModelsOfIs(children, ms);
    }

    /** The loop of a walk over the nodes `cs`: each is visited in place, and
        the result lists, in order, the nodes that were not removed. */
    static method WalkEach(cs: seq<Node>, ghost owned: set<object>, pass: Pass)
        returns (kept: seq<Node>, ghost ms: seq<Tree>)
      requires forall j :: 0 <= j < |cs| ==> cs[j].Valid() && cs[j].Repr <= owned
      requires forall j, k :: 0 <= j < k < |cs| ==> cs[j].Repr !! cs[k].Repr
      modifies owned
      ensures |kept| == |ms|
      ensures forall t :: 0 <= t < |kept| ==> kept[t].Repr <= owned && kept[t].Valid() && kept[t].model == ms[t]
      ensures forall t, u :: 0 <= t < u < |kept| ==> kept[t].Repr !! kept[u].Repr
      ensures ms == Over(pass, old(ModelsOf(cs)))
      decreases owned, 8
    {
      ghost var olds := ModelsOf(cs);
      ghost var reprs := seq(|cs|, j requires 0 <= j < |cs| reads cs => cs[j].Repr);
      ghost var done: set<object> := {};
      kept, ms := [], [];
      var i := 0;
      while i < |cs|
        invariant 0 <= i <= |cs|
        invariant forall j :: i <= j < |cs| ==> cs[j].Repr == reprs[j] && cs[j].Valid() && cs[j].model == olds[j]
        invariant forall j :: i <= j < |cs| ==> reprs[j] !! done
        invariant |kept| == |ms|
        invariant forall t :: 0 <= t < |kept| ==> kept[t].Repr <= done && kept[t].Valid() && kept[t].model == ms[t]
        invariant forall t, u :: 0 <= t < u < |kept| ==> kept[t].Repr !! kept[u].Repr
        invariant done <= owned
        invariant ms == Over(pass, olds[..i])
      {
        kept, ms, done := VisitChild(cs, i, kept, ms, done, olds, reprs, owned, pass);
        i := i + 1;
      }
      assert olds[..|cs|] == olds;
    }

    /** One turn of the walk: the next node is visited and kept unless the
        visit removed it; the nodes kept before it and those still to come
        own objects apart from it and are left as they were. */
    static method VisitChild(cs: seq<Node>, i: nat, kept: seq<Node>, ghost ms: seq<Tree>, ghost done: set<object>,
                             ghost olds: seq<Tree>, ghost reprs: seq<set<object>>, ghost owned: set<object>,
                             pass: Pass)
        returns (kept': seq<Node>, ghost ms': seq<Tree>, ghost done': set<object>)
      requires i < |cs| == |olds| == |reprs|
      requires forall j :: 0 <= j < |cs| ==> reprs[j] <= owned
      requires forall j, k :: 0 <= j < k < |cs| ==> reprs[j] !! reprs[k]
      requires forall j :: i <= j < |cs| ==> cs[j].Repr == reprs[j] && cs[j].Valid() && cs[j].model == olds[j]
      requires forall j :: i <= j < |cs| ==> reprs[j] !! done
      requires |kept| == |ms|
      requires forall t :: 0 <= t < |kept| ==> kept[t].Repr <= done && kept[t].Valid() && kept[t].model == ms[t]
      requires forall t, u :: 0 <= t < u < |kept| ==> kept[t].Repr !! kept[u].Repr
      requires done <= owned
      requires ms == Over(pass, olds[..i])
      modifies reprs[i]
      ensures forall j :: i + 1 <= j < |cs| ==> cs[j].Repr == reprs[j] && cs[j].Valid() && cs[j].model == olds[j]
      ensures forall j :: i + 1 <= j < |cs| ==> reprs[j] !! done'
      ensures |kept'| == |ms'|
      ensures forall t :: 0 <= t < |kept'| ==> kept'[t].Repr <= done' && kept'[t].Valid() && kept'[t].model == ms'[t]
      ensures forall t, u :: 0 <= t < u < |kept'| ==> kept'[t].Repr !! kept'[u].Repr
      ensures done' <= owned
      ensures ms' == Over(pass, olds[..i + 1])
      decreases owned, 7
    {
      var c := cs[i];
      var k := VisitNode(c, kept, cs, i, pass);
      OverStep(pass, olds, i, ms, k, c.model);
      kept', ms', done' := kept, ms, done + reprs[i];
      if k {
        kept', ms' := kept + [c], ms + [c.model];
      }
    }

    /** The visit of one node: under `Clean`, `deepClean` on an element (a
        text node is passed over); under `Prune`, a matching element is
        removed and the walk goes on below one that does not match. The
        nodes in `before` and those after position `i` in `after` own
        objects apart from the visited node's and are left as they were. */
    static method VisitNode(c: Node, ghost before: seq<Node>, ghost after: seq<Node>, ghost i: nat, pass: Pass)
        returns (k: bool)
      requires c.Valid()
      requires forall t :: 0 <= t < |before| ==> before[t].Valid() && before[t].Repr !! c.Repr
      requires forall j :: i < j < |after| ==> after[j].Valid() && after[j].Repr !! c.Repr
      modifies c.Repr
      ensures c.Repr == old(c.Repr)
      ensures k <==> Outcome(pass, old(c.model)).Some?
      ensures k ==> c.Valid() && c.model == Outcome(pass, old(c.model)).value
      ensures forall t :: 0 <= t < |before| ==>
        before[t].Valid() && before[t].Repr == old(before[t].Repr) && before[t].model == old(before[t].model)
      ensures forall j :: i < j < |after| ==>
        after[j].Valid() && after[j].Repr == old(after[j].Repr) && after[j].model == old(after[j].model)
      decreases c.Repr, 6
    {
      k := c.Visit(pass);
    }

    /** The visit of this node by `pass`. */
    method Visit(pass: Pass) returns (k: bool)
      requires Valid()
      modifies Repr
      ensures Repr == old(Repr)
      ensures k <==> Outcome(pass, old(model)).Some?
      ensures k ==> Valid() && model == Outcome(pass, old(model)).value
      decreases Repr, 5
    {
      k := true;
      if !isText {
        match pass {
          case Clean(base, resolve) =>
            k := DeepClean(base, resolve);
          case Prune(m, sel) =>
            if m(sel, tag, attrs) {
              k := false;
            } else {
              ghost var cs := model.children;
              WalkChildren(pass);
              PruneTreeElement(tag, attrs, cs, m, sel);
            }
        }
      }
    }
  }

  lemma CleanTreeElement(g: string, a: seq<Attr>, cs: seq<Tree>, base: string, resolve: Resolver)
    requires CleanAttrs(g, a, base, resolve).Some?
    ensures CleanTree(Element(g, a, cs), base, resolve)
      == Some(Element(g, CleanAttrs(g, a, base, resolve).value, Over(Clean(base, resolve), cs)))
  {
  }

  lemma PruneTreeElement(g: string, a: seq<Attr>, cs: seq<Tree>, m: Matcher, sel: string)
    requires !m(sel, g, a)
    ensures Outcome(Prune(m, sel), Element(g, a, cs)) == Some(Element(g, a, Over(Prune(m, sel), cs)))
  {
  }

  lemma ModelsOfIs(ns: seq<Node>, ms: seq<Tree>)
    requires |ns| == |ms| && forall t :: 0 <= t < |ns| ==> ns[t].model == ms[t]
    ensures ModelsOf(ns) == ms
  {
  }
}
