/** What `deepClean` (app/api/fetch-web/route.ts) does to one element and to a
    forest, as functions on values: the specification the in-place method in
    module Elements is proved against, and the properties the sanitiser
    promises (which attributes survive, what links and images become, and
    that cleaning twice changes nothing). */
module Sanitize {
  import opened Wrappers
  import opened Strings
  import opened Attributes
  import opened Dom

  /** `new URL(rel, base).href`, or nothing when the URL parser throws. */
  type Resolver = (string, string) -> Option<string>

  // ---------------------------------------------------------------- attributes

  /** The attribute names cheerio reads as boolean attributes, in any letter
      case. */
  const BooleanNames: set<string> := {
    "autofocus", "autoplay", "async", "checked", "controls", "defer", "disabled",
    "hidden", "loop", "multiple", "open", "readonly", "required", "scoped", "selected"
  }

  /** What `$node.attr(name)` reads for an attribute that is present: the
      name itself for a boolean attribute, the stored value otherwise. */
  function AttrText(x: Attr): string {
    if AsciiLower(x.name) in BooleanNames then x.name else x.value
  }

  /** The attribute test of the cleaning loop: an event-handler name, `srcdoc`,
      or a read value that mentions `javascript:` or starts with `data:`. */
  predicate Dangerous(x: Attr) {
    || StartsWith(x.name, "on")
    || x.name == "srcdoc"
    || Contains(AttrText(x), "javascript:")
    || StartsWith(AttrText(x), "data:")
  }

  /** The names the anchor and image branches write are read by value. */
  lemma PlainNames()
    ensures AsciiLower("href") == "href" && "href" !in BooleanNames
    ensures AsciiLower("src") == "src" && "src" !in BooleanNames
    ensures AsciiLower("loading") == "loading" && "loading" !in BooleanNames
  {
  }

  /** A boolean attribute is tested on its name, so whatever its stored value
      says, the cleaning loop keeps it: `open="javascript:x"` survives. */
  lemma BooleanValueUntested(tag: string, v: string, base: string, resolve: Resolver)
    requires tag != "a" && tag != "img"
    ensures !Dangerous(Attr("open", v))
    ensures CleanAttrs(tag, [Attr("open", v)], base, resolve) == Some([Attr("open", v)])
  {
    var a := [Attr("open", v)];
    assert AsciiLower("open") == "open";
    assert !StartsWith("open", "on") by { assert "open"[1] != 'n'; }
    ContainsShorter("open", "javascript:");
    assert !StartsWith("open", "data:");
    assert !Has(a, "style") by { assert a[0].name != "style"; }
    RemoveAbsent(a, "style");
    KeepSafeIdentity(a);
  }

  /** An attribute the cleaning pass lets through. */
  predicate SafeAttr(x: Attr) {
    x.name != "style" && !Dangerous(x)
  }

  /** Its name alone is one the cleaning pass lets through. */
  predicate SafeName(name: string) {
    name != "style" && !StartsWith(name, "on") && name != "srcdoc"
  }

  predicate AllSafe(a: seq<Attr>) {
    forall i :: 0 <= i < |a| ==> SafeAttr(a[i])
  }

  predicate AllSafeNames(a: seq<Attr>) {
    forall i :: 0 <= i < |a| ==> SafeName(a[i].name)
  }

  /** The attributes that survive the loop over the keys, in order. */
  function KeepSafe(a: seq<Attr>): (r: seq<Attr>)
    ensures |r| <= |a|
    ensures forall i :: 0 <= i < |r| ==> r[i] in a && !Dangerous(r[i])
  {
    if a == [] then []
    else (if Dangerous(a[0]) then [] else [a[0]]) + KeepSafe(a[1..])
  }

  /** `removeAttr('style')` followed by the loop over the remaining keys. */
  function StripAttrs(a: seq<Attr>): seq<Attr> {
    KeepSafe(Remove(a, "style"))
  }

  /** An `href` the anchor branch leaves alone: empty, or starting with
      `http`, `#` or `mailto:`. */
  predicate HrefKept(h: string) {
    h == "" || StartsWith(h, "http") || StartsWith(h, "#") || StartsWith(h, "mailto:")
  }

  /** A `src` the image branch leaves alone: empty, or starting with `http`
      or `data:`. */
  predicate SrcKept(s: string) {
    s == "" || StartsWith(s, "http") || StartsWith(s, "data:")
  }

  /** The anchor branch: a relative `href` is made absolute against the base
      URL, or removed when it cannot be resolved. */
  function RewriteHref(a: seq<Attr>, base: string, resolve: Resolver): seq<Attr> {
    var href := Get(a, "href").GetOr("");
    if HrefKept(href) then a
    else match resolve(href, base)
      case Some(u) => Set(a, "href", u)
      case None => Remove(a, "href")
  }

  /** The image branch: a relative `src` is made absolute (or the image is
      dropped, `None`, when it cannot be resolved); then `srcset`, `loading`
      and `decoding` are removed and `loading="lazy"` is set. */
  function RewriteImg(a: seq<Attr>, base: string, resolve: Resolver): Option<seq<Attr>> {
    var src := Get(a, "src").GetOr("");
    var resolved :=
      if SrcKept(src) then Some(a)
      else match resolve(src, base)
        case Some(u) => Some(Set(a, "src", u))
        case None => None;
    match resolved
    case None => None
    case Some(b) => Some(Lazy(b))
  }

  /** `removeAttr('srcset loading decoding')` then `attr('loading', 'lazy')`. */
  function Lazy(b: seq<Attr>): seq<Attr> {
    Set(Remove(Remove(Remove(b, "srcset"), "loading"), "decoding"), "loading", "lazy")
  }

  /** One visit of `deepClean` to an element's attributes: `None` when the
      element (an image whose source cannot be resolved) is removed. */
  function CleanAttrs(tag: string, a: seq<Attr>, base: string, resolve: Resolver): Option<seq<Attr>> {
    var stripped := StripAttrs(a);
    var linked := if tag == "a" then RewriteHref(stripped, base, resolve) else stripped;
    if tag == "img" then RewriteImg(linked, base, resolve) else Some(linked)
  }

  // ---------------------------------------------------------------- trees

  /** `deepClean(node)` on a value: `None` when the node is removed. Text
      nodes are not elements, so `.children()` never hands them to it. */
  function CleanTree(t: Tree, base: string, resolve: Resolver): Option<Tree>
    decreases t
  {
    match t
    case Text(_) => Some(t)
    case Element(g, a, cs) =>
      match CleanAttrs(g, a, base, resolve)
      case None => None
      case Some(a') => Some(Element(g, a', CleanIn(cs, base, resolve)))
  }

  /** `children().each(deepClean)`: the surviving children, cleaned, in order. */
  function CleanIn(ks: seq<Tree>, base: string, resolve: Resolver): seq<Tree>
    decreases ks
  {
    if ks == [] then []
    else
      (match CleanTree(ks[0], base, resolve) case None => [] case Some(t) => [t])
      + CleanIn(ks[1..], base, resolve)
  }

  /** `$main.children().each(el => deepClean(el))`: the selected root keeps
      its own attributes; only its descendants are cleaned. */
  function CleanMain(t: Tree, base: string, resolve: Resolver): Tree {
    match t
    case Text(_) => t
    case Element(g, a, cs) => Element(g, a, CleanIn(cs, base, resolve))
  }

  // ---------------------------------------------------------------- hypotheses on the resolver

  /** A URL the cleaning loop would let through as an attribute value. */
  predicate SafeUrl(u: string) {
    !Contains(u, "javascript:") && !StartsWith(u, "data:")
  }

  /** Every URL the resolver produces against `base` is one the cleaning loop
      would let through. */
  ghost predicate ResolvesSafely(resolve: Resolver, base: string) {
    forall r :: resolve(r, base).Some? ==> SafeUrl(resolve(r, base).value)
  }

  /** Resolving an already resolved URL against the same base returns it
      unchanged. */
  ghost predicate Settles(resolve: Resolver, base: string) {
    forall r :: resolve(r, base).Some? ==> resolve(resolve(r, base).value, base) == resolve(r, base)
  }

  // ---------------------------------------------------------------- attribute-level facts

  lemma {:induction false} KeepSafeAppend(x: seq<Attr>, y: seq<Attr>)
    ensures KeepSafe(x + y) == KeepSafe(x) + KeepSafe(y)
    decreases |x|
  {
    if x != [] {
      var h := if Dangerous(x[0]) then [] else [x[0]];
      assert (x + y)[0] == x[0] && (x + y)[1..] == x[1..] + y;
      assert KeepSafe(x + y) == h + KeepSafe(x[1..] + y);
      KeepSafeAppend(x[1..], y);
      AppendAssoc(h, KeepSafe(x[1..]), KeepSafe(y));
    } else {
      assert x + y == y;
    }
  }

  lemma {:induction false} KeepSafeUnique(a: seq<Attr>)
    requires Unique(a)
    ensures Unique(KeepSafe(a))
    decreases |a|
  {
    if a != [] {
      KeepSafeUnique(a[1..]);
      var rest := KeepSafe(a[1..]);
      forall i | 0 <= i < |rest| ensures rest[i].name != a[0].name {
        var j :| 0 <= j < |a[1..]| && a[1..][j] == rest[i];
        assert a[j + 1] == rest[i];
      }
    }
  }

  lemma {:induction false} KeepSafeIdentity(a: seq<Attr>)
    requires forall i :: 0 <= i < |a| ==> !Dangerous(a[i])
    ensures KeepSafe(a) == a
    decreases |a|
  {
    if a != [] {
      KeepSafeIdentity(a[1..]);
      assert a == [a[0]] + a[1..];
    }
  }

  /** What the cleaning loop leaves under a name: the old value when it is
      not dangerous, nothing otherwise. */
  lemma {:induction false} GetKeepSafe(a: seq<Attr>, k: string)
    requires Unique(a)
    ensures Get(KeepSafe(a), k) ==
      if Get(a, k).Some? && !Dangerous(Attr(k, Get(a, k).value)) then Get(a, k) else None
    decreases |a|
  {
    if a != [] {
      UniqueTail(a);
      GetKeepSafe(a[1..], k);
      var x, rest := a[0], KeepSafe(a[1..]);
      assert a == [x] + a[1..];
      GetCons(x, a[1..], k);
      if Dangerous(x) {
        assert KeepSafe(a) == rest;
      } else {
        assert KeepSafe(a) == [x] + rest;
        GetCons(x, rest, k);
      }
      if x.name == k {
        assert x == Attr(k, Get(a, k).value);
      }
    }
  }

  lemma StripFacts(a: seq<Attr>)
    requires Unique(a)
    ensures Unique(StripAttrs(a)) && AllSafe(StripAttrs(a))
    ensures forall k :: k != "style" ==> (Get(StripAttrs(a), k) ==
      if Get(a, k).Some? && !Dangerous(Attr(k, Get(a, k).value)) then Get(a, k) else None)
  {
    RemoveUnique(a, "style");
    KeepSafeUnique(Remove(a, "style"));
    var r := StripAttrs(a);
    forall i | 0 <= i < |r| ensures SafeAttr(r[i]) {
      assert r[i] in Remove(a, "style");
    }
    forall k | k != "style" ensures Get(StripAttrs(a), k) ==
      if Get(a, k).Some? && !Dangerous(Attr(k, Get(a, k).value)) then Get(a, k) else None
    {
      GetKeepSafe(Remove(a, "style"), k);
    }
  }

  lemma StripIdentity(a: seq<Attr>)
    requires AllSafe(a)
    ensures StripAttrs(a) == a
  {
    assert !Has(a, "style");
    RemoveAbsent(a, "style");
    KeepSafeIdentity(a);
  }

  lemma SetSafe(a: seq<Attr>, k: string, v: string)
    requires AllSafe(a) && SafeAttr(Attr(k, v))
    ensures AllSafe(Set(a, k, v))
  {
  }

  lemma SetSafeNames(a: seq<Attr>, k: string, v: string)
    requires AllSafeNames(a) && SafeName(k)
    ensures AllSafeNames(Set(a, k, v))
  {
    var r := Set(a, k, v);
    forall i | 0 <= i < |r| ensures SafeName(r[i].name) {
      if r[i] in a {
        var j :| 0 <= j < |a| && a[j] == r[i];
      }
    }
  }

  lemma RemoveSafe(a: seq<Attr>, k: string)
    ensures AllSafe(a) ==> AllSafe(Remove(a, k))
    ensures AllSafeNames(a) ==> AllSafeNames(Remove(a, k))
  {
    var r := Remove(a, k);
    forall i | 0 <= i < |r| ensures r[i] in a {}
  }

  lemma RemoveOther(a: seq<Attr>, k: string, j: string)
    requires j != k
    ensures Get(Remove(a, k), j) == Get(a, j)
  {
  }

  /** The three removals of the lazy-loading rewrite leave no `srcset`,
      `loading` or `decoding`, and leave `src` alone. */
  lemma LazyRemovals(b: seq<Attr>)
    ensures var x := Remove(Remove(Remove(b, "srcset"), "loading"), "decoding");
      && !Has(x, "srcset") && !Has(x, "loading") && !Has(x, "decoding")
      && Get(x, "src") == Get(b, "src")
  {
    var r1 := Remove(b, "srcset");
    var r2 := Remove(r1, "loading");
    assert "decoding"[0] != "loading"[0] && "decoding"[0] != "srcset"[0] && |"decoding"| != |"src"|;
    assert "loading"[0] != "srcset"[0] && |"loading"| != |"src"| && |"srcset"| != |"src"|;
    RemoveOther(r2, "decoding", "loading");
    RemoveOther(r2, "decoding", "srcset");
    RemoveOther(r2, "decoding", "src");
    RemoveOther(r1, "loading", "srcset");
    RemoveOther(r1, "loading", "src");
    RemoveOther(b, "srcset", "src");
  }

  /** The lazy-loading rewrite leaves `src` alone, and its result ends with
      `loading="lazy"` and holds no `srcset`, `loading` or `decoding` before it. */
  lemma LazyShape(b: seq<Attr>)
    ensures var x := Remove(Remove(Remove(b, "srcset"), "loading"), "decoding");
      && !Has(x, "srcset") && !Has(x, "loading") && !Has(x, "decoding")
      && Lazy(b) == x + [Attr("loading", "lazy")]
    ensures Get(Lazy(b), "src") == Get(b, "src")
    ensures Get(Lazy(b), "loading") == Some("lazy")
    ensures !Has(Lazy(b), "srcset") && !Has(Lazy(b), "decoding")
  {
    LazyRemovals(b);
    var x := Remove(Remove(Remove(b, "srcset"), "loading"), "decoding");
    var l := Attr("loading", "lazy");
    assert Lazy(b) == Set(x, "loading", "lazy") == x + [l];
    GetAppend(x, l, "src");
    GetAppend(x, l, "srcset");
    GetAppend(x, l, "decoding");
  }

  lemma LazyIdempotent(b: seq<Attr>)
    ensures Lazy(Lazy(b)) == Lazy(b)
  {
    LazyShape(b);
    var x := Remove(Remove(Remove(b, "srcset"), "loading"), "decoding");
    var l := Attr("loading", "lazy");
    assert !Has(x + [l], "srcset") by { GetAppend(x, l, "srcset"); }
    RemoveAbsent(x + [l], "srcset");
    RemoveLast(x, l);
    RemoveAbsent(x, "decoding");
  }

  lemma LazyFacts(b: seq<Attr>)
    ensures Unique(b) ==> Unique(Lazy(b))
    ensures AllSafe(b) ==> AllSafe(Lazy(b))
    ensures AllSafeNames(b) ==> AllSafeNames(Lazy(b))
  {
    var r1 := Remove(b, "srcset");
    var r2 := Remove(r1, "loading");
    var r3 := Remove(r2, "decoding");
    if Unique(b) {
      RemoveUnique(b, "srcset"); RemoveUnique(r1, "loading"); RemoveUnique(r2, "decoding");
      SetUnique(r3, "loading", "lazy");
    }
    RemoveSafe(b, "srcset"); RemoveSafe(r1, "loading"); RemoveSafe(r2, "decoding");
    if AllSafe(b) {
      PlainNames();
      ContainsShorter("lazy", "javascript:");
      assert !StartsWith("lazy", "data:");
      assert !StartsWith("loading", "on") by { assert "loading"[..2] == "lo"; }
      SetSafe(r3, "loading", "lazy");
    }
    if AllSafeNames(b) {
      assert !StartsWith("loading", "on") by { assert "loading"[..2] == "lo"; }
      SetSafeNames(r3, "loading", "lazy");
    }
  }

  // ---------------------------------------------------------------- per-element properties

  /** Whatever the resolver does, no cleaned element keeps a `style`, an
      `on...` or a `srcdoc` attribute, and the map stays duplicate-free. */
  lemma CleanAttrsNames(tag: string, a: seq<Attr>, base: string, resolve: Resolver)
    requires Unique(a) && CleanAttrs(tag, a, base, resolve).Some?
    ensures Unique(CleanAttrs(tag, a, base, resolve).value)
    ensures AllSafeNames(CleanAttrs(tag, a, base, resolve).value)
  {
    StripFacts(a);
    var stripped := StripAttrs(a);
    assert AllSafeNames(stripped);
    var linked := if tag == "a" then RewriteHref(stripped, base, resolve) else stripped;
    if tag == "a" {
      var href := Get(stripped, "href").GetOr("");
      if !HrefKept(href) && resolve(href, base).Some? {
        SetUnique(stripped, "href", resolve(href, base).value);
        SetSafeNames(stripped, "href", resolve(href, base).value);
      } else {
        RemoveUnique(stripped, "href");
        RemoveSafe(stripped, "href");
      }
    }
    assert Unique(linked) && AllSafeNames(linked);
    if tag == "img" {
      var src := Get(linked, "src").GetOr("");
      if !SrcKept(src) {
        var u := resolve(src, base).value;
        SetUnique(linked, "src", u);
        SetSafeNames(linked, "src", u);
        LazyFacts(Set(linked, "src", u));
      } else {
        LazyFacts(linked);
      }
    }
  }

  /** When every resolved URL is safe, every attribute of a cleaned element
      passes the cleaning test: no `style`, no `on...`, no `srcdoc`, no value
      mentioning `javascript:` or starting with `data:`. */
  lemma CleanAttrsSafe(tag: string, a: seq<Attr>, base: string, resolve: Resolver)
    requires Unique(a) && ResolvesSafely(resolve, base)
    requires CleanAttrs(tag, a, base, resolve).Some?
    ensures AllSafe(CleanAttrs(tag, a, base, resolve).value)
  {
    PlainNames();
    StripFacts(a);
    var stripped := StripAttrs(a);
    var linked := if tag == "a" then RewriteHref(stripped, base, resolve) else stripped;
    if tag == "a" {
      var href := Get(stripped, "href").GetOr("");
      if !HrefKept(href) && resolve(href, base).Some? {
        SetSafe(stripped, "href", resolve(href, base).value);
      } else {
        RemoveSafe(stripped, "href");
      }
    }
    if tag == "img" {
      var src := Get(linked, "src").GetOr("");
      if !SrcKept(src) {
        var u := resolve(src, base).value;
        SetSafe(linked, "src", u);
        LazyFacts(Set(linked, "src", u));
      } else {
        LazyFacts(linked);
      }
    }
  }

  /** What an anchor's `href` becomes: a dangerous or missing one is gone; an
      empty one or one starting with `http`, `#` or `mailto:` stays as it
      was; any other becomes its resolution, or disappears when it has none.
      So no relative link survives. Every other attribute is as the cleaning
      loop left it. */
  lemma AnchorHref(a: seq<Attr>, base: string, resolve: Resolver)
    requires Unique(a)
    ensures CleanAttrs("a", a, base, resolve).Some?
    ensures Get(CleanAttrs("a", a, base, resolve).value, "href") ==
      match Get(a, "href")
      case None => None
      case Some(h) =>
        if Dangerous(Attr("href", h)) then None
        else if HrefKept(h) then Some(h)
        else resolve(h, base)
    ensures forall k :: k != "href" ==> Get(CleanAttrs("a", a, base, resolve).value, k) == Get(StripAttrs(a), k)
  {
    StripFacts(a);
  }

  /** What an image becomes: it is removed exactly when its (surviving) `src`
      is neither empty nor starts with `http` or `data:` and cannot be
      resolved; otherwise its `src` is kept or resolved, it loads lazily, it
      has no `srcset` or `decoding` attribute, and every other attribute is
      as the cleaning loop left it. */
  lemma ImageSrc(a: seq<Attr>, base: string, resolve: Resolver)
    requires Unique(a)
    ensures var s0 := Get(a, "src");
      var s := if s0.Some? && !Dangerous(Attr("src", s0.value)) then s0.value else "";
      var r := CleanAttrs("img", a, base, resolve);
      && (r.None? <==> !SrcKept(s) && resolve(s, base).None?)
      && (r.Some? ==>
          && Get(r.value, "loading") == Some("lazy")
          && !Has(r.value, "srcset") && !Has(r.value, "decoding")
          && Get(r.value, "src") ==
             (if s0.Some? && !Dangerous(Attr("src", s0.value)) then
                (if SrcKept(s) then Some(s) else resolve(s, base))
              else None))
    ensures var r := CleanAttrs("img", a, base, resolve);
      r.Some? ==> forall k :: k != "src" && k != "srcset" && k != "loading" && k != "decoding" ==>
        Get(r.value, k) == Get(StripAttrs(a), k)
  {
    StripFacts(a);
    var stripped := StripAttrs(a);
    var src := Get(stripped, "src").GetOr("");
    if SrcKept(src) {
      LazyShape(stripped);
      LazyOthers(stripped);
    } else if resolve(src, base).Some? {
      LazyShape(Set(stripped, "src", resolve(src, base).value));
      LazyOthers(Set(stripped, "src", resolve(src, base).value));
    }
  }

  /** The lazy-loading rewrite touches no attribute but `srcset`, `loading`
      and `decoding`. */
  lemma LazyOthers(b: seq<Attr>)
    ensures forall k :: k != "srcset" && k != "loading" && k != "decoding" ==> Get(Lazy(b), k) == Get(b, k)
  {
  }

  /** Cleaning an element's attributes a second time changes nothing, when
      resolving a resolved URL gives it back and every resolved URL passes
      the attribute test. A real URL parser breaks the second hypothesis
      (see `SettlingIsNotEnough`). */
  lemma CleanAttrsIdempotent(tag: string, a: seq<Attr>, base: string, resolve: Resolver)
    requires Unique(a) && Settles(resolve, base) && ResolvesSafely(resolve, base)
    requires CleanAttrs(tag, a, base, resolve).Some?
    ensures Unique(CleanAttrs(tag, a, base, resolve).value)
    ensures CleanAttrs(tag, CleanAttrs(tag, a, base, resolve).value, base, resolve) == CleanAttrs(tag, a, base, resolve)
  {
    var a' := CleanAttrs(tag, a, base, resolve).value;
    CleanAttrsNames(tag, a, base, resolve);
    CleanAttrsSafe(tag, a, base, resolve);
    StripIdentity(a');
    StripFacts(a);
    var stripped := StripAttrs(a);
    if tag == "a" {
      var href := Get(stripped, "href").GetOr("");
      if !HrefKept(href) && resolve(href, base).Some? {
        var u := resolve(href, base).value;
        assert Get(a', "href") == Some(u);
        if !HrefKept(u) {
          SetSame(a', "href", u);
        }
      }
    } else if tag == "img" {
      var src := Get(stripped, "src").GetOr("");
      var b := if SrcKept(src) then stripped else Set(stripped, "src", resolve(src, base).value);
      assert a' == Lazy(b);
      LazyShape(b);
      LazyIdempotent(b);
      if !SrcKept(src) {
        var u := resolve(src, base).value;
        assert Get(a', "src") == Some(u);
        if !SrcKept(u) {
          SetSame(a', "src", u);
        }
      }
    }
  }

  // ---------------------------------------------------------------- tree-level properties

  /** No element of the forest has a `style`, `on...` or `srcdoc` attribute. */
  predicate NamesSafeIn(ks: seq<Tree>)
    decreases ks
  {
    forall i :: 0 <= i < |ks| ==>
      ks[i].Element? ==> AllSafeNames(ks[i].attrs) && NamesSafeIn(ks[i].children)
  }

  /** Every attribute of every element of the forest passes the cleaning test. */
  predicate AttrsSafeIn(ks: seq<Tree>)
    decreases ks
  {
    forall i :: 0 <= i < |ks| ==>
      ks[i].Element? ==> AllSafe(ks[i].attrs) && AttrsSafeIn(ks[i].children)
  }

  lemma {:induction false} CleanInAppend(x: seq<Tree>, y: seq<Tree>, base: string, resolve: Resolver)
    ensures CleanIn(x + y, base, resolve) == CleanIn(x, base, resolve) + CleanIn(y, base, resolve)
    decreases |x|
  {
    if x == [] {
      assert x + y == y;
    } else {
      assert (x + y)[0] == x[0] && (x + y)[1..] == x[1..] + y;
      CleanInAppend(x[1..], y, base, resolve);
    }
  }

  /** Cleaning a forest keeps every attribute map duplicate-free and leaves
      no `style`, `on...` or `srcdoc` attribute anywhere, whatever the
      resolver does; when every resolved URL is safe, every surviving
      attribute passes the cleaning test. */
  lemma {:induction false} CleanInSafe(ks: seq<Tree>, base: string, resolve: Resolver)
    requires WellFormedIn(ks)
    ensures WellFormedIn(CleanIn(ks, base, resolve))
    ensures NamesSafeIn(CleanIn(ks, base, resolve))
    ensures ResolvesSafely(resolve, base) ==> AttrsSafeIn(CleanIn(ks, base, resolve))
    decreases ks
  {
    if ks != [] {
      assert WellFormedIn(ks[1..]) by {
        forall i | 0 <= i < |ks[1..]| ensures ks[1..][i] == ks[i + 1] {}
      }
      CleanInSafe(ks[1..], base, resolve);
      CleanTreeSafe(ks[0], base, resolve);
      var h := match CleanTree(ks[0], base, resolve) case None => [] case Some(t) => [t];
      var rest := CleanIn(ks[1..], base, resolve);
      assert CleanIn(ks, base, resolve) == h + rest;
      SafeInAppend(h, rest);
    }
  }

  /** The same facts for the outcome of cleaning one tree, as a forest of
      zero or one trees. */
  lemma {:induction false} CleanTreeSafe(t: Tree, base: string, resolve: Resolver)
    requires t.Element? ==> Unique(t.attrs) && WellFormedIn(t.children)
    ensures var h := match CleanTree(t, base, resolve) case None => [] case Some(u) => [u];
      && WellFormedIn(h) && NamesSafeIn(h)
      && (ResolvesSafely(resolve, base) ==> AttrsSafeIn(h))
    decreases t
  {
    match t
    case Text(_) =>
    case Element(g, a, cs) =>
      CleanInSafe(cs, base, resolve);
      if CleanAttrs(g, a, base, resolve).Some? {
        CleanAttrsNames(g, a, base, resolve);
        if ResolvesSafely(resolve, base) {
          CleanAttrsSafe(g, a, base, resolve);
        }
      }
  }

  /** The three forest properties hold of a concatenation when they hold of
      both parts. */
  lemma SafeInAppend(x: seq<Tree>, y: seq<Tree>)
    ensures WellFormedIn(x) && WellFormedIn(y) ==> WellFormedIn(x + y)
    ensures NamesSafeIn(x) && NamesSafeIn(y) ==> NamesSafeIn(x + y)
    ensures AttrsSafeIn(x) && AttrsSafeIn(y) ==> AttrsSafeIn(x + y)
  {
    forall i | 0 <= i < |x + y| ensures (x + y)[i] == if i < |x| then x[i] else y[i - |x|] {}
  }

  /** Cleaning a cleaned forest again changes nothing, when resolving a
      resolved URL gives it back and every resolved URL passes the attribute
      test. */
  lemma {:induction false} CleanInIdempotent(ks: seq<Tree>, base: string, resolve: Resolver)
    requires WellFormedIn(ks) && Settles(resolve, base) && ResolvesSafely(resolve, base)
    ensures CleanIn(CleanIn(ks, base, resolve), base, resolve) == CleanIn(ks, base, resolve)
    decreases ks
  {
    if ks != [] {
      assert WellFormedIn(ks[1..]) by {
        forall i | 0 <= i < |ks[1..]| ensures ks[1..][i] == ks[i + 1] {}
      }
      CleanInIdempotent(ks[1..], base, resolve);
      var h := match CleanTree(ks[0], base, resolve) case None => [] case Some(t) => [t];
      var rest := CleanIn(ks[1..], base, resolve);
      CleanInAppend(h, rest, base, resolve);
      match ks[0]
      case Text(_) =>
        assert CleanIn(h, base, resolve) == h by { assert h[1..] == []; }
      case Element(g, a, cs) =>
        assert Unique(a) && WellFormedIn(cs) by { assert ks[0] == ks[0]; }
        if CleanAttrs(g, a, base, resolve).Some? {
          CleanAttrsIdempotent(g, a, base, resolve);
          CleanInIdempotent(cs, base, resolve);
          assert CleanIn(h, base, resolve) == h by { assert h[1..] == []; }
        }
    }
  }

  /** Cleaning the selected root's descendants twice changes nothing, under
      the same two hypotheses on the resolver. */
  lemma CleanMainIdempotent(t: Tree, base: string, resolve: Resolver)
    requires WellFormedIn([t]) && Settles(resolve, base) && ResolvesSafely(resolve, base)
    ensures CleanMain(CleanMain(t, base, resolve), base, resolve) == CleanMain(t, base, resolve)
  {
    if t.Element? {
      assert [t][0] == t;
      CleanInIdempotent(t.children, base, resolve);
    }
  }

  /** A lone relative `href` that passes the attribute test is replaced by
      whatever the resolver makes of it, and that value is not tested again. */
  lemma ResolvedHrefUntested(h: string, base: string, resolve: Resolver)
    requires !Dangerous(Attr("href", h)) && !HrefKept(h) && resolve(h, base).Some?
    ensures CleanAttrs("a", [Attr("href", h)], base, resolve) == Some([Attr("href", resolve(h, base).value)])
  {
    var a := [Attr("href", h)];
    var v := resolve(h, base).value;
    assert !Has(a, "style") by { assert a[0].name != "style"; }
    RemoveAbsent(a, "style");
    KeepSafeIdentity(a);
    assert Set(a, "href", v) == [Attr("href", v)] by {
      assert Has(a, "href");
      assert Replace(a[1..], "href", v) == [];
    }
  }

  /** The attribute test is case-sensitive and runs before links are
      resolved: with a resolver that lower-cases the scheme, as URL parsers
      do, an `href` of `JavaScript:x` passes the test and comes out as
      `javascript:x`, a value the test would have removed. So the safety of
      cleaned links rests on the resolver (see `CleanAttrsSafe`). */
  lemma MixedCaseSchemeSurvives(base: string)
    ensures !Dangerous(Attr("href", "JavaScript:x"))
    ensures CleanAttrs("a", [Attr("href", "JavaScript:x")], base, LowerScheme)
      == Some([Attr("href", "javascript:x")])
  {
    var h := "JavaScript:x";
    assert !HrefKept(h) by {
      assert h[0] != 'h' && h[0] != '#' && h[0] != 'm';
    }
    MixedCasePassesTest(h);
    assert LowerScheme(h, base) == Some("javascript:x") by { LowerMixedCase(); }
    ResolvedHrefUntested(h, base, LowerScheme);
  }

  /** The lower-cased value is one the attribute test removes. */
  lemma LoweredSchemeIsDangerous()
    ensures Dangerous(Attr("href", "javascript:x"))
  {
    PlainNames();
    assert StartsWith("javascript:x", "javascript:");
  }

  /** A resolver that only lower-cases ASCII letters (as URL parsers do with
      a scheme). */
  function LowerScheme(u: string, base: string): Option<string> {
    Some(AsciiLower(u))
  }

  lemma MixedCasePassesTest(h: string)
    requires h == "JavaScript:x"
    ensures !Dangerous(Attr("href", h))
  {
    PlainNames();
    NoSchemeAtStart(h);
    assert !StartsWith(h, "data:") by { assert h[0] != 'd'; }
    assert !StartsWith("href", "on") by { assert "href"[0] != 'o'; }
  }

  /** A string of at most twelve characters whose first two are not `j`
      does not contain `javascript:`. */
  lemma NoSchemeAtStart(h: string)
    requires 2 <= |h| <= 12 && h[0] != 'j' && h[1] != 'j'
    ensures !Contains(h, "javascript:")
  {
    assert !StartsWith(h, "javascript:") by { assert h[0] != 'j'; }
    assert !StartsWith(h[1..], "javascript:") by { assert h[1..][0] != 'j'; }
    ContainsShorter(h[2..], "javascript:");
    assert h[1..][1..] == h[2..];
  }

  lemma LowerMixedCase()
    ensures AsciiLower("JavaScript:x") == "javascript:x"
  {
    var h := "JavaScript:x";
    var l := AsciiLower(h);
    assert l[0] == 'j' by { assert h[0] == 'J'; }
    assert l[4] == 's' by { assert h[4] == 'S'; }
    assert l[1] == 'a' && l[2] == 'v' && l[3] == 'a';
    assert l[5] == 'c' && l[6] == 'r' && l[7] == 'i';
    assert l[8] == 'p' && l[9] == 't' && l[10] == ':' && l[11] == 'x';
  }

  /** A resolver that only lower-cases is one that settles, yet cleaning with
      it is not idempotent: the first pass stores `javascript:x` for
      `JavaScript:x`, and the second pass removes it. So settling alone does
      not make the cleaning pass idempotent. */
  lemma SettlingIsNotEnough(base: string)
    ensures Settles(LowerScheme, base)
    ensures var once := CleanAttrs("a", [Attr("href", "JavaScript:x")], base, LowerScheme);
      && once == Some([Attr("href", "javascript:x")])
      && CleanAttrs("a", once.value, base, LowerScheme) == Some([])
  {
    LowerSchemeSettles(base);
    MixedCaseSchemeSurvives(base);
    var a := [Attr("href", "javascript:x")];
    LoweredSchemeIsDangerous();
    assert !Has(a, "style") by { assert a[0].name != "style"; }
    RemoveAbsent(a, "style");
    assert KeepSafe(a) == [] by { assert a[1..] == []; }
  }

  lemma LowerSchemeSettles(base: string)
    ensures Settles(LowerScheme, base)
  {
    forall r ensures LowerScheme(LowerScheme(r, base).value, base) == LowerScheme(r, base) {
      assert AsciiLower(AsciiLower(r)) == AsciiLower(r);
    }
  }

  /** The resolver as the cleaning pass evidently means to use it: a resolved
      URL that the attribute test would remove is treated like one that
      cannot be resolved. */
  function Screened(resolve: Resolver): Resolver {
    (r: string, b: string) =>
      if resolve(r, b).Some? && SafeUrl(resolve(r, b).value) then resolve(r, b) else None
  }

  /** Every URL a screened resolver produces passes the attribute test, and
      screening keeps a resolver that settles one that settles. */
  lemma ScreenedFacts(resolve: Resolver, base: string)
    ensures ResolvesSafely(Screened(resolve), base)
    ensures Settles(resolve, base) ==> Settles(Screened(resolve), base)
  {
    if Settles(resolve, base) {
      forall r | Screened(resolve)(r, base).Some?
        ensures Screened(resolve)(Screened(resolve)(r, base).value, base) == Screened(resolve)(r, base)
      {
        assert resolve(resolve(r, base).value, base) == resolve(r, base);
      }
    }
  }

  /** With the screened resolver, no cleaned attribute holds a dangerous
      value, whatever the URL parser does. */
  lemma ScreenedCleanSafe(ks: seq<Tree>, base: string, resolve: Resolver)
    requires WellFormedIn(ks)
    ensures AttrsSafeIn(CleanIn(ks, base, Screened(resolve)))
  {
    ScreenedFacts(resolve, base);
    CleanInSafe(ks, base, Screened(resolve));
  }

  /** With the screened resolver, cleaning twice equals cleaning once as soon
      as resolving a resolved URL gives it back. */
  lemma ScreenedCleanIdempotent(ks: seq<Tree>, base: string, resolve: Resolver)
    requires WellFormedIn(ks) && Settles(resolve, base)
    ensures CleanIn(CleanIn(ks, base, Screened(resolve)), base, Screened(resolve))
         == CleanIn(ks, base, Screened(resolve))
  {
    ScreenedFacts(resolve, base);
    CleanInIdempotent(ks, base, Screened(resolve));
  }

  /** The screened resolver removes the mixed-case link in the first pass. */
  lemma ScreenedRemovesMixedCase(base: string)
    ensures CleanAttrs("a", [Attr("href", "JavaScript:x")], base, Screened(LowerScheme)) == Some([])
  {
    var h := "JavaScript:x";
    assert !HrefKept(h) by { assert h[0] != 'h' && h[0] != '#' && h[0] != 'm'; }
    MixedCasePassesTest(h);
    assert LowerScheme(h, base) == Some("javascript:x") by { LowerMixedCase(); }
    assert !SafeUrl("javascript:x") by { assert StartsWith("javascript:x", "javascript:"); }
    var a := [Attr("href", h)];
    assert !Has(a, "style") by { assert a[0].name != "style"; }
    RemoveAbsent(a, "style");
    KeepSafeIdentity(a);
    assert Remove(a, "href") == [];
  }

  // ---------------------------------------------------------------- steps of the in-place pass

  /** One turn of the loop over the attribute keys: the key's value is still
      the original one, and removing it (when dangerous) leaves the kept
      prefix followed by the keys not yet visited. */
  lemma KeepSafeStep(a0: seq<Attr>, i: nat)
    requires Unique(a0) && i < |a0|
    ensures Get(KeepSafe(a0[..i]) + a0[i..], a0[i].name) == Some(a0[i].value)
    ensures KeepSafe(a0[..i + 1]) + a0[i + 1..] ==
      if Dangerous(a0[i]) then Remove(KeepSafe(a0[..i]) + a0[i..], a0[i].name)
      else KeepSafe(a0[..i]) + a0[i..]
  {
    KeepSafeApart(a0, i);
    KeepSafeSnoc(a0, i);
    assert a0[i..] == [a0[i]] + a0[i + 1..];
    MiddleStep(KeepSafe(a0[..i]), a0[i], a0[i + 1..]);
  }

  /** The visit of a key that occurs once, between the kept keys `x` and the
      keys still to come `y`. */
  lemma MiddleStep(x: seq<Attr>, e: Attr, y: seq<Attr>)
    requires !Has(x, e.name) && !Has(y, e.name)
    ensures Get(x + ([e] + y), e.name) == Some(e.value)
    ensures (x + (if Dangerous(e) then [] else [e])) + y ==
      if Dangerous(e) then Remove(x + ([e] + y), e.name) else x + ([e] + y)
  {
    AppendAssoc(x, [e], y);
    GetMiddle(x, e, y);
    if Dangerous(e) {
      RemoveMiddle(x, e, y);
      assert x + [] == x;
    }
  }

  /** The key under visit occurs neither among the keys kept so far nor
      among those still to come. */
  lemma KeepSafeApart(a0: seq<Attr>, i: nat)
    requires Unique(a0) && i < |a0|
    ensures !Has(KeepSafe(a0[..i]), a0[i].name) && !Has(a0[i + 1..], a0[i].name)
  {
    var x := KeepSafe(a0[..i]);
    forall t | 0 <= t < |x| ensures x[t].name != a0[i].name {
      var j :| 0 <= j < |a0[..i]| && a0[..i][j] == x[t];
      assert a0[j] == x[t];
    }
    var y := a0[i + 1..];
    forall t | 0 <= t < |y| ensures y[t].name != a0[i].name {
      assert y[t] == a0[i + 1 + t];
    }
  }

  lemma KeepSafeSnoc(a0: seq<Attr>, i: nat)
    requires i < |a0|
    ensures KeepSafe(a0[..i + 1]) == KeepSafe(a0[..i]) + (if Dangerous(a0[i]) then [] else [a0[i]])
  {
    assert a0[..i + 1] == a0[..i] + [a0[i]];
    KeepSafeAppend(a0[..i], [a0[i]]);
    assert KeepSafe([a0[i]]) == if Dangerous(a0[i]) then [] else [a0[i]];
  }

  /** Cleaning a forest one more tree at the end. */
  lemma CleanInSnoc(xs: seq<Tree>, x: Tree, base: string, resolve: Resolver)
    ensures CleanIn(xs + [x], base, resolve) ==
      CleanIn(xs, base, resolve) + (match CleanTree(x, base, resolve) case None => [] case Some(t) => [t])
  {
    CleanInAppend(xs, [x], base, resolve);
    assert [x][1..] == [];
  }

  /** One more step of the walk over a forest: the trees cleaned so far,
      extended by the next one's outcome. */
  lemma CleanInStep(ts: seq<Tree>, i: nat, done: seq<Tree>, k: bool, m: Tree, base: string, resolve: Resolver)
    requires i < |ts| && done == CleanIn(ts[..i], base, resolve)
    requires k <==> CleanTree(ts[i], base, resolve).Some?
    requires k ==> m == CleanTree(ts[i], base, resolve).value
    ensures (if k then done + [m] else done) == CleanIn(ts[..i + 1], base, resolve)
  {
    TakeSnoc(ts, i);
    CleanInSnoc(ts[..i], ts[i], base, resolve);
  }
}
