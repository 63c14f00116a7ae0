/** The JavaScript string operations both sides of the application rely on,
    over `seq<char>`: prefix, suffix and infix tests, `trim`, ASCII lower-casing
    and the `/^https?:\/\//i` scheme test. */
module Strings {

  predicate StartsWith(s: string, p: string) {
    |p| <= |s| && s[..|p|] == p
  }

  predicate EndsWith(s: string, p: string) {
    |p| <= |s| && s[|s| - |p|..] == p
  }

  /** `s.includes(p)`: `p` occurs somewhere in `s`. */
  predicate Contains(s: string, p: string)
    decreases |s|
  {
    StartsWith(s, p) || (|s| > 0 && Contains(s[1..], p))
  }

  /** The characters `String.prototype.trim` removes: ECMAScript's WhiteSpace
      and LineTerminator code points. */
  predicate IsSpace(c: char) {
    || c == ' ' || c == '\t' || c == '\n' || c == '\r'
    || c == '\U{000B}' || c == '\U{000C}' || c == '\U{00A0}' || c == '\U{FEFF}'
    || c == '\U{1680}' || ('\U{2000}' <= c <= '\U{200A}')
    || c == '\U{2028}' || c == '\U{2029}' || c == '\U{202F}' || c == '\U{205F}'
    || c == '\U{3000}'
  }

  /** Every character is white space (so `s.trim()` is the empty, falsy string). */
  predicate IsBlank(s: string) {
    forall i :: 0 <= i < |s| ==> IsSpace(s[i])
  }

  function TrimStart(s: string): (r: string)
    ensures |r| <= |s| && r == s[|s| - |r|..]
    ensures IsBlank(s[..|s| - |r|])
    ensures r != [] ==> !IsSpace(r[0])
    decreases |s|
  {
    if |s| > 0 && IsSpace(s[0]) then
      var r := TrimStart(s[1..]);
      assert s[..|s| - |r|] == [s[0]] + s[1..][..|s[1..]| - |r|];
      r
    else s
  }

  function TrimEnd(s: string): (r: string)
    ensures |r| <= |s| && r == s[..|r|]
    ensures IsBlank(s[|r|..])
    ensures r != [] ==> !IsSpace(r[|r| - 1])
    decreases |s|
  {
    if |s| > 0 && IsSpace(s[|s| - 1]) then
      var r := TrimEnd(s[..|s| - 1]);
      assert s[|r|..] == s[..|s| - 1][|r|..] + [s[|s| - 1]];
      r
    else s
  }

  /** `r` is `s` with a run of white space removed from each end. */
  predicate BlankPadded(s: string, r: string) {
    exists i :: 0 <= i <= |s| - |r| && r == s[i..i + |r|] && IsBlank(s[..i]) && IsBlank(s[i + |r|..])
  }

  /** `s.trim()`: the infix of `s` left once the white space at both ends is
      removed; it neither starts nor ends with white space, and it is empty
      exactly when `s` is blank. */
  function Trim(s: string): (r: string)
    ensures |r| <= |s|
    ensures r == [] <==> IsBlank(s)
    ensures r != [] ==> !IsSpace(r[0]) && !IsSpace(r[|r| - 1])
    ensures |s| > 0 && !IsSpace(s[0]) ==> |r| > 0 && r[0] == s[0]
    ensures BlankPadded(s, r)
  {
    var a := TrimStart(s);
    var r := TrimEnd(a);
    Window(s, a, r);
    r
  }

  /** A text `r` cut from the front of a suffix `a` of `s`, with only white
      space before `a` and after `r`, and no white space at either end of
      `r`, is what trimming `s` leaves. */
  lemma Window(s: string, a: string, r: string)
    requires |a| <= |s| && a == s[|s| - |a|..] && IsBlank(s[..|s| - |a|])
    requires a != [] ==> !IsSpace(a[0])
    requires |r| <= |a| && r == a[..|r|] && IsBlank(a[|r|..])
    requires r != [] ==> !IsSpace(r[|r| - 1])
    ensures r == [] <==> IsBlank(s)
    ensures r != [] ==> !IsSpace(r[0])
    ensures |s| > 0 && !IsSpace(s[0]) ==> |r| > 0 && r[0] == s[0]
    ensures BlankPadded(s, r)
  {
    var i := |s| - |a|;
    assert r == s[i..i + |r|];
    assert s[i + |r|..] == a[|r|..];
    if r == [] {
      assert a[|r|..] == a;
      forall k | 0 <= k < |s| ensures IsSpace(s[k]) {
        assert s[..i][k] == s[k];
      }
    } else {
      assert r[0] == a[0] == s[i];
    }
  }

  /** White space around a text never changes what trimming it gives. */
  lemma TrimPadded(a: string, s: string, b: string)
    requires IsBlank(a) && IsBlank(b)
    ensures Trim(a + s + b) == Trim(s)
  {
    var t := a + s + b;
    var r := Trim(s);
    var i := |s| - |TrimStart(s)|;
    var rt := Trim(t);
    var j := |t| - |TrimStart(t)|;
    if r == [] {
      assert IsBlank(t) by {
        forall k | 0 <= k < |t| ensures IsSpace(t[k]) {
          if k < |a| { assert t[k] == a[k]; }
          else if k < |a| + |s| { assert t[k] == s[k - |a|]; }
          else { assert t[k] == b[k - |a| - |s|]; }
        }
      }
    } else {
      TrimSlice(s);
      TrimSlice(t);
      // the first non-space character of `t` is the first of `r`
      assert TrimStart(t) == t[j..];
      assert TrimStart(s) == s[i..];
      TrimStartPadded(a, s, b);
      TrimEndPadded(TrimStart(s), b);
    }
  }

  lemma TrimSlice(s: string)
    ensures TrimStart(s) == s[|s| - |TrimStart(s)|..]
  {
  }

  lemma {:induction false} TrimStartPadded(a: string, s: string, b: string)
    requires IsBlank(a)
    requires !IsBlank(s)
    ensures TrimStart(a + s + b) == TrimStart(s) + b
    decreases |a|, |s|
  {
    if a != [] {
      assert (a + s + b)[1..] == a[1..] + s + b;
      TrimStartPadded(a[1..], s, b);
    } else if IsSpace(s[0]) {
      assert (s + b)[1..] == s[1..] + b;
      assert a + s + b == s + b;
      assert a + s[1..] + b == s[1..] + b;
      TrimStartPadded(a, s[1..], b);
    } else {
      assert a + s + b == s + b;
    }
  }

  lemma {:induction false} TrimEndPadded(s: string, b: string)
    requires IsBlank(b)
    requires s != [] && !IsSpace(s[0])
    ensures TrimEnd(s + b) == TrimEnd(s)
    decreases |b|, |s|
  {
    if b != [] {
      var init := b[..|b| - 1];
      assert (s + b)[..|s + b| - 1] == s + init;
      TrimEndPadded(s, init);
    } else {
      assert s + b == s;
    }
  }

  /** Trimming the end never removes a character that is not white space. */
  lemma {:induction false} TrimEndKeeps(s: string, k: nat)
    requires k < |s| && !IsSpace(s[k])
    ensures |TrimEnd(s)| > k
    decreases |s|
  {
    if IsSpace(s[|s| - 1]) {
      TrimEndKeeps(s[..|s| - 1], k);
    }
  }

  /** `s.toLowerCase()` restricted to ASCII letters. */
  function AsciiLower(s: string): (r: string)
    ensures |r| == |s|
    ensures forall i :: 0 <= i < |s| ==> r[i] == LowerChar(s[i])
  {
    seq(|s|, i requires 0 <= i < |s| => LowerChar(s[i]))
  }

  function LowerChar(c: char): char {
    if 'A' <= c <= 'Z' then (c as int + 32) as char else c
  }

  /** The regular expression `/^https?:\/\//i`: `s` starts with `http://` or
      `https://` in any mix of letter case. */
  predicate HasHttpScheme(s: string) {
    StartsWith(AsciiLower(s), "http://") || StartsWith(AsciiLower(s), "https://")
  }

  /** Putting `https://` in front always gives the scheme test a match. */
  lemma HttpsScheme(u: string)
    ensures HasHttpScheme("https://" + u)
  {
    var s := "https://" + u;
    forall i | 0 <= i < 8
      ensures AsciiLower(s)[i] == "https://"[i]
    {
      assert s[i] == "https://"[i];
    }
  }

  /** The concatenation of a sequence of strings, in order. */
  function Concat(parts: seq<string>): (r: string)
  {
    if parts == [] then "" else Concat(parts[..|parts| - 1]) + parts[|parts| - 1]
  }

  lemma ConcatAppend(a: seq<string>, b: seq<string>)
    ensures Concat(a + b) == Concat(a) + Concat(b)
    decreases |b|
  {
    if b == [] {
      assert a + b == a;
    } else {
      var ab := a + b;
      var init := b[..|b| - 1];
      assert ab[..|ab| - 1] == a + init;
      assert ab[|ab| - 1] == b[|b| - 1];
      ConcatAppend(a, init);
      AppendAssoc(Concat(a), Concat(init), b[|b| - 1]);
    }
  }

  lemma AppendAssoc<T>(x: seq<T>, y: seq<T>, z: seq<T>)
    ensures (x + y) + z == x + (y + z)
  {
  }

  lemma StartsWithAppend(s: string, t: string, p: string)
    requires StartsWith(s, p)
    ensures StartsWith(s + t, p)
  {
    assert (s + t)[..|p|] == s[..|p|];
  }

  lemma ContainsAt(s: string, p: string, i: nat)
    requires i + |p| <= |s| && s[i..i + |p|] == p
    ensures Contains(s, p)
    decreases i
  {
    if i > 0 {
      assert s[1..][i - 1..i - 1 + |p|] == s[i..i + |p|];
      ContainsAt(s[1..], p, i - 1);
    }
  }

  /** An infix of `s` is found in any string that surrounds `s`. */
  lemma ContainsInfix(a: string, s: string, b: string, p: string)
    requires Contains(s, p)
    ensures Contains(a + s + b, p)
    decreases |s|
  {
    if StartsWith(s, p) {
      assert (a + s + b)[|a|..|a| + |p|] == p;
      ContainsAt(a + s + b, p, |a|);
    } else {
      ContainsInfix(a + [s[0]], s[1..], b, p);
      assert a + [s[0]] + s[1..] + b == a + s + b;
    }
  }

  /** A string contains itself. */
  lemma ContainsSelf(s: string)
    ensures Contains(s, s)
  {
    assert StartsWith(s, s);
  }

  /** A string shorter than `p` cannot contain it. */
  lemma {:induction false} ContainsShorter(s: string, p: string)
    requires |s| < |p|
    ensures !Contains(s, p)
    decreases |s|
  {
    if |s| > 0 {
      ContainsShorter(s[1..], p);
    }
  }
}
