/** An element's attributes as cheerio keeps them: an ordered map from names
    to values (a JavaScript object, whose keys keep insertion order). Reading
    a missing name gives nothing, removing keeps the order of the others, and
    setting a present name replaces its value in place while setting a new
    name appends it. */
module Attributes {
  import opened Wrappers

  datatype Attr = Attr(name: string, value: string)

  predicate Has(a: seq<Attr>, k: string) {
    exists i :: 0 <= i < |a| && a[i].name == k
  }

  /** No name occurs twice: the attribute list is a map. */
  predicate Unique(a: seq<Attr>) {
    forall i, j :: 0 <= i < j < |a| ==> a[i].name != a[j].name
  }

  /** `$node.attr(k)`: the value stored under `k`, if any. */
  function Get(a: seq<Attr>, k: string): (r: Option<string>)
    ensures r.Some? <==> Has(a, k)
    ensures r.Some? ==> exists i :: 0 <= i < |a| && a[i] == Attr(k, r.value)
  {
    if a == [] then None
    else if a[0].name == k then Some(a[0].value)
    else
      var r := Get(a[1..], k);
      assert Has(a, k) ==> Has(a[1..], k) by {
        if Has(a, k) {
          var i :| 0 <= i < |a| && a[i].name == k;
          assert a[1..][i - 1].name == k;
        }
      }
      assert r.Some? ==> exists i :: 0 <= i < |a| && a[i] == Attr(k, r.value) by {
        if r.Some? {
          var i :| 0 <= i < |a[1..]| && a[1..][i] == Attr(k, r.value);
          assert a[i + 1] == Attr(k, r.value);
        }
      }
      r
  }

  /** `$node.removeAttr(k)`: every other attribute stays, in order. */
  function Remove(a: seq<Attr>, k: string): (r: seq<Attr>)
    ensures !Has(r, k)
    ensures forall j :: j != k ==> Get(r, j) == Get(a, j)
    ensures |r| <= |a|
    ensures forall i :: 0 <= i < |r| ==> r[i] in a
  {
    if a == [] then []
    else
      var rest := Remove(a[1..], k);
      if a[0].name == k then rest else [a[0]] + rest
  }

  /** `$node.attr(k, v)`: the value under `k` becomes `v`; a present name keeps
      its position, a new one is appended. */
  function Set(a: seq<Attr>, k: string, v: string): (r: seq<Attr>)
    ensures Get(r, k) == Some(v)
    ensures forall j :: j != k ==> Get(r, j) == Get(a, j)
    ensures !Has(a, k) ==> r == a + [Attr(k, v)]
    ensures Has(a, k) ==> |r| == |a|
    ensures forall i :: 0 <= i < |r| ==> r[i] in a || r[i] == Attr(k, v)
  {
    if Has(a, k) then Replace(a, k, v)
    else
      var r := a + [Attr(k, v)];
      GetAppend(a, Attr(k, v), k);
      forall j | j != k ensures Get(r, j) == Get(a, j) { GetAppend(a, Attr(k, v), j); }
      r
  }

  function Replace(a: seq<Attr>, k: string, v: string): (r: seq<Attr>)
    ensures |r| == |a|
    ensures forall i :: 0 <= i < |a| ==> r[i] == a[i] || r[i] == Attr(k, v)
    ensures Has(a, k) ==> Get(r, k) == Some(v)
    ensures forall j :: j != k ==> Get(r, j) == Get(a, j)
    ensures forall i :: 0 <= i < |a| ==> r[i].name == a[i].name
  {
    if a == [] then []
    else
      var rest := Replace(a[1..], k, v);
      var r := [if a[0].name == k then Attr(k, v) else a[0]] + rest;
      assert r[1..] == rest;
      assert Has(a, k) && a[0].name != k ==> Has(a[1..], k) by {
        if Has(a, k) && a[0].name != k {
          var i :| 0 <= i < |a| && a[i].name == k;
          assert a[1..][i - 1].name == k;
        }
      }
      r
  }

  lemma GetAppend(a: seq<Attr>, x: Attr, j: string)
    ensures Get(a + [x], j) == if Has(a, j) then Get(a, j) else if x.name == j then Some(x.value) else None
  {
    if a != [] {
      assert (a + [x])[1..] == a[1..] + [x];
      GetAppend(a[1..], x, j);
      if !Has(a, j) {
        assert !Has(a[1..], j);
      }
    }
  }

  lemma RemoveUnique(a: seq<Attr>, k: string)
    requires Unique(a)
    ensures Unique(Remove(a, k))
  {
    if a != [] {
      RemoveUnique(a[1..], k);
      var rest := Remove(a[1..], k);
      forall i | 0 <= i < |rest| ensures rest[i].name != a[0].name {
        var j :| 0 <= j < |a[1..]| && a[1..][j] == rest[i];
        assert a[j + 1] == rest[i];
      }
    }
  }

  lemma SetUnique(a: seq<Attr>, k: string, v: string)
    requires Unique(a)
    ensures Unique(Set(a, k, v))
  {
    if !Has(a, k) {
      var r := a + [Attr(k, v)];
      forall i, j | 0 <= i < j < |r| ensures r[i].name != r[j].name {
        if j == |a| { assert r[i] == a[i]; }
      }
    }
  }

  /** In a map, removing the last entry and appending it again changes nothing. */
  lemma RemoveLast(a: seq<Attr>, x: Attr)
    requires !Has(a, x.name)
    ensures Remove(a + [x], x.name) == a
  {
    if a == [] {
    } else {
      assert (a + [x])[1..] == a[1..] + [x];
      assert !Has(a[1..], x.name);
      RemoveLast(a[1..], x);
    }
  }

  /** Removing a name that is absent changes nothing. */
  lemma RemoveAbsent(a: seq<Attr>, k: string)
    requires !Has(a, k)
    ensures Remove(a, k) == a
  {
    if a != [] {
      assert !Has(a[1..], k);
      RemoveAbsent(a[1..], k);
    }
  }

  /** Setting a name to the value it already has changes nothing. */
  lemma SetSame(a: seq<Attr>, k: string, v: string)
    requires Unique(a) && Get(a, k) == Some(v)
    ensures Set(a, k, v) == a
  {
    ReplaceSame(a, k, v);
  }

  lemma ReplaceSame(a: seq<Attr>, k: string, v: string)
    requires Unique(a) && (Has(a, k) ==> Get(a, k) == Some(v))
    ensures Replace(a, k, v) == a
  {
    if a != [] {
      assert Unique(a[1..]) by {
        forall i, j | 0 <= i < j < |a[1..]| ensures a[1..][i].name != a[1..][j].name {
          assert a[1..][i] == a[i + 1] && a[1..][j] == a[j + 1];
        }
      }
      if a[0].name == k {
        assert !Has(a[1..], k);
      }
      ReplaceSame(a[1..], k, v);
    }
  }

  lemma GetCons(x: Attr, r: seq<Attr>, k: string)
    ensures Get([x] + r, k) == if x.name == k then Some(x.value) else Get(r, k)
  {
    assert ([x] + r)[1..] == r;
  }

  lemma UniqueTail(a: seq<Attr>)
    requires Unique(a) && a != []
    ensures Unique(a[1..]) && !Has(a[1..], a[0].name)
  {
    forall i, j | 0 <= i < j < |a[1..]| ensures a[1..][i].name != a[1..][j].name {
      assert a[1..][i] == a[i + 1] && a[1..][j] == a[j + 1];
    }
    forall i | 0 <= i < |a[1..]| ensures a[1..][i].name != a[0].name {
      assert a[1..][i] == a[i + 1];
    }
  }

  /** Removing a name held by exactly one entry takes out that entry alone. */
  lemma {:induction false} RemoveMiddle(x: seq<Attr>, e: Attr, y: seq<Attr>)
    requires !Has(x, e.name) && !Has(y, e.name)
    ensures Remove(x + [e] + y, e.name) == x + y
    decreases |x|
  {
    if x == [] {
      assert x + [e] + y == [e] + y;
      assert ([e] + y)[1..] == y;
      RemoveAbsent(y, e.name);
    } else {
      assert (x + [e] + y)[1..] == x[1..] + [e] + y;
      assert !Has(x[1..], e.name) by {
        forall i | 0 <= i < |x[1..]| ensures x[1..][i].name != e.name { assert x[1..][i] == x[i + 1]; }
      }
      RemoveMiddle(x[1..], e, y);
      assert x + y == [x[0]] + (x[1..] + y);
    }
  }

  /** The entry holding a name that occurs nowhere before it is the one read. */
  lemma GetMiddle(x: seq<Attr>, e: Attr, y: seq<Attr>)
    requires !Has(x, e.name)
    ensures Get(x + [e] + y, e.name) == Some(e.value)
  {
    GetAppend(x, e, e.name);
    GetPrefix(x + [e], y, e.name);
  }

  /** A name present in a prefix is read from that prefix. */
  lemma {:induction false} GetPrefix(a: seq<Attr>, b: seq<Attr>, k: string)
    requires Has(a, k)
    ensures Get(a + b, k) == Get(a, k)
    decreases |a|
  {
    assert (a + b)[0] == a[0];
    if a[0].name != k {
      assert (a + b)[1..] == a[1..] + b;
      assert Has(a[1..], k) by {
        var i :| 0 <= i < |a| && a[i].name == k;
        assert a[1..][i - 1] == a[i];
      }
      GetPrefix(a[1..], b, k);
    }
  }
}
