/** Sorting and joining names, as both checksums do. */
module Names {
  import opened Points

  ghost predicate StrictlySorted(r: seq<string>) {
    forall i, j :: 0 <= i < j < |r| ==> StrLess(r[i], r[j])
  }

  ghost predicate Lists(r: seq<string>, names: set<string>) {
    StrictlySorted(r) && forall x :: x in r <==> x in names
  }

  /** `r.join(sep)`. */
  function Join(r: seq<string>, sep: string): string {
    if r == [] then "" else if |r| == 1 then r[0] else r[0] + sep + Join(r[1..], sep)
  }

  lemma JoinSnoc(r: seq<string>, x: string, sep: string)
    ensures Join(r + [x], sep) == if r == [] then x else Join(r, sep) + sep + x
  {
    if r == [] {
    } else {
      assert (r + [x])[1..] == r[1..] + [x];
      if |r| > 1 {
        JoinSnoc(r[1..], x, sep);
      }
    }
  }

  /** A string does not contain the separator. */
  ghost predicate Without(s: string, c: char) {
    forall i :: 0 <= i < |s| ==> s[i] != c
  }

  ghost predicate AllWithout(r: seq<string>, c: char) {
    forall i :: 0 <= i < |r| ==> Without(r[i], c)
  }

  lemma SplitsEarlier(x: string, r: string, y: string, t: string, c: char)
    requires Without(y, c) && |x| < |y|
    ensures x + [c] + r != y + [c] + t
  {
    assert (x + [c] + r)[|x|] == c && (y + [c] + t)[|x|] == y[|x|];
  }

  lemma SplitUnique(x: string, r: string, y: string, t: string, c: char)
    requires Without(x, c) && Without(y, c) && x + [c] + r == y + [c] + t
    ensures x == y && r == t
  {
    if |x| < |y| {
      SplitsEarlier(x, r, y, t, c);
    } else if |y| < |x| {
      SplitsEarlier(y, t, x, r, c);
    }
    var s := x + [c] + r;
    assert x == s[..|x|] && y == s[..|y|] && r == s[|x| + 1..] && t == s[|y| + 1..];
  }

  lemma NoSeparator(x: string, y: string, t: string, c: char)
    requires Without(x, c)
    ensures x != y + [c] + t
  {
    assert (y + [c] + t)[|y|] == c;
  }

  /** Lists of names without the separator are joined to different strings; only the empty list and the list of the
      empty name are joined to the same one. */
  lemma {:induction false} JoinInjective(r: seq<string>, t: seq<string>, c: char)
    requires AllWithout(r, c) && AllWithout(t, c) && Join(r, [c]) == Join(t, [c])
    ensures r == t || (r == [] && t == [""]) || (r == [""] && t == [])
  {
    if r == [] || t == [] {
      JoinEmpty(r, c);
      JoinEmpty(t, c);
    } else if |r| == 1 && |t| == 1 {
    } else if |r| == 1 {
      NoSeparator(r[0], t[0], Join(t[1..], [c]), c);
    } else if |t| == 1 {
      NoSeparator(t[0], r[0], Join(r[1..], [c]), c);
    } else {
      SplitUnique(r[0], Join(r[1..], [c]), t[0], Join(t[1..], [c]), c);
      JoinInjective(r[1..], t[1..], c);
      assert r == [r[0]] + r[1..] && t == [t[0]] + t[1..];
    }
  }

  lemma JoinEmpty(r: seq<string>, c: char)
    ensures Join(r, [c]) == "" ==> r == [] || r == [""]
  {
  }

  /** A set of names has one sorted list. */
  lemma {:induction false} ListsUnique(a: seq<string>, b: seq<string>, names: set<string>)
    requires Lists(a, names) && Lists(b, names)
    ensures a == b
  {
    assert (a == [] || a[0] in names) && (b == [] || b[0] in names);
    if a == [] {
    } else {
      var i :| 0 <= i < |b| && b[i] == a[0];
      assert b[0] in names;
      var j :| 0 <= j < |a| && a[j] == b[0];
      StrLessTotal(a[0], b[0]);
      assert a[0] == b[0];
      ListsTail(a, names);
      ListsTail(b, names);
      ListsUnique(a[1..], b[1..], names - {a[0]});
      assert a == [a[0]] + a[1..] && b == [b[0]] + b[1..];
    }
  }

  lemma ListsTail(a: seq<string>, names: set<string>)
    requires Lists(a, names) && a != []
    ensures Lists(a[1..], names - {a[0]})
  {
    forall i | 1 <= i < |a| ensures a[i] != a[0] { StrLessTotal(a[0], a[i]); }
    forall x | x in a[1..] ensures x in names && x != a[0] {
      var i :| 0 <= i < |a[1..]| && a[1..][i] == x;
      assert a[i + 1] == x;
    }
    forall x | x in names && x != a[0] ensures x in a[1..] {
      var i :| 0 <= i < |a| && a[i] == x;
      assert a[1..][i - 1] == x;
    }
  }

  lemma InsertLists(a: seq<string>, k: nat, x: string, names: set<string>)
    requires Lists(a, names) && k <= |a| && x !in names
    requires (forall i :: 0 <= i < k ==> StrLess(a[i], x)) && (forall i :: k <= i < |a| ==> StrLess(x, a[i]))
    ensures Lists(a[..k] + [x] + a[k..], names + {x})
  {
    var r := a[..k] + [x] + a[k..];
    assert r[k] == x;
    forall y | y in a ensures y in r {
      var i :| 0 <= i < |a| && a[i] == y;
      assert r[if i < k then i else i + 1] == y;
    }
  }

  lemma Append(a: seq<string>, x: string, names: set<string>)
    requires Lists(a, names) && x !in names && forall y :: y in names ==> StrLess(y, x)
    ensures Lists(a + [x], names + {x})
  {
    InsertLists(a, |a|, x, names);
    assert a[..|a|] + [x] + a[|a|..] == a + [x];
  }

  lemma NotBefore(a: seq<string>, names: set<string>, i: nat)
    requires Lists(a, names) && i < |a|
    ensures a[i] !in a[..i] && forall y :: y in a[..i] ==> StrLess(y, a[i])
  {
    forall k | 0 <= k < i ensures a[k] != a[i] {
      StrLessTotal(a[k], a[i]);
    }
  }

  lemma PlaceIsRight(a: seq<string>, k: nat, x: string)
    requires StrictlySorted(a) && k <= |a| && x !in a && (k < |a| ==> !StrLess(a[k], x))
    ensures forall i :: k <= i < |a| ==> StrLess(x, a[i])
  {
    forall i | k <= i < |a| ensures StrLess(x, a[i]) {
      StrLessTotal(a[k], x);
      if i > k { StrLessTrans(x, a[k], a[i]); }
    }
  }

  /** `Object.keys(names).sort()`. */
  method Sort(names: set<string>) returns (r: seq<string>)
    ensures Lists(r, names)
  {
    r := [];
    var rest := names;
    while rest != {}
      invariant rest <= names && Lists(r, names - rest)
      decreases rest
    {
      var x :| x in rest;
      var k := 0;
      while k < |r| && StrLess(r[k], x)
        invariant k <= |r| && forall i :: 0 <= i < k ==> StrLess(r[i], x)
      {
        k := k + 1;
      }
      PlaceIsRight(r, k, x);
      InsertLists(r, k, x, names - rest);
      assert names - rest + {x} == names - (rest - {x});
      r := r[..k] + [x] + r[k..];
      rest := rest - {x};
    }
    assert names - {} == names;
  }

  lemma {:induction false} ListExists(names: set<string>) returns (r: seq<string>)
    ensures Lists(r, names)
    decreases |names|
  {
    if names == {} {
      r := [];
    } else {
      var x :| x in names;
      var s := ListExists(names - {x});
      var k := 0;
      while k < |s| && StrLess(s[k], x)
        invariant k <= |s| && forall i :: 0 <= i < k ==> StrLess(s[i], x)
      {
        k := k + 1;
      }
      PlaceIsRight(s, k, x);
      InsertLists(s, k, x, names - {x});
      assert names - {x} + {x} == names;
      r := s[..k] + [x] + s[k..];
    }
  }

  lemma ListIsThere(names: set<string>)
    ensures exists r :: Lists(r, names)
  {
    var r := ListExists(names);
  }

  /** The sorted list of a set of names. */
  ghost function Sorted(names: set<string>): (r: seq<string>)
    ensures Lists(r, names)
  {
    ListIsThere(names);
    var r :| Lists(r, names);
    r
  }
}
