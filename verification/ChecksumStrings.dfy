/** What a membership checksum string tells about the entries it was made from (lib/membership/index.js:115-144). */
module ChecksumStrings {
  import opened Members
  import opened Checksums
  import opened Numerals
  import opened Points
  import Names

  // ---- the end of a row ----

  /** The end of a row, without its separator. */
  function Tail(s: State): string {
    StatusName(s.status) + Number(s.incarnation)
  }

  lemma DigitsEnd(u: string, d: string, v: string, e: string)
    requires AllDigits(d) && AllDigits(e) && u != "" && v != "" && !IsDigit(u[|u| - 1]) && !IsDigit(v[|v| - 1])
    requires u + d == v + e
    ensures u == v && d == e
  {
    ShorterDigits(u, d, v, e);
    ShorterDigits(v, e, u, d);
    assert (u + d)[..|u|] == u && (v + e)[..|v|] == v && (u + d)[|u|..] == d && (v + e)[|v|..] == e;
  }

  lemma ShorterDigits(u: string, d: string, v: string, e: string)
    requires AllDigits(e) && v != "" && u != "" && !IsDigit(u[|u| - 1])
    ensures |v| < |u| ==> u + d != v + e
  {
    if |v| < |u| {
      assert (u + d)[|u| - 1] == u[|u| - 1];
      if |u| - 1 < |v + e| {
        assert (v + e)[|u| - 1] == e[|u| - 1 - |v|];
      }
    }
  }

  /** A status name ends in letters that tell it from every other. */
  lemma NamesEndApart(p: string, s: Status, q: string, t: Status)
    requires p + StatusName(s) == q + StatusName(t)
    ensures s == t && p == q
  {
    var x, y := p + StatusName(s), q + StatusName(t);
    assert x[|x| - 1] == StatusName(s)[|StatusName(s)| - 1] && y[|y| - 1] == StatusName(t)[|StatusName(t)| - 1];
    assert x[|x| - 3] == StatusName(s)[|StatusName(s)| - 3] && y[|y| - 3] == StatusName(t)[|StatusName(t)| - 3];
    assert s == t;
    assert x[..|x| - |StatusName(s)|] == p && y[..|y| - |StatusName(t)|] == q;
  }

  function Sign(i: int): string {
    if i < 0 then "-" else ""
  }

  function Abs(i: int): nat {
    if i < 0 then -i else i
  }

  ghost predicate EndsInLetter(x: string) {
    x != "" && !IsDigit(x[|x| - 1]) && x[|x| - 1] != '-'
  }

  lemma SignEnds(x: string, i: int)
    requires EndsInLetter(x)
    ensures var u := x + Sign(i);
            u != "" && !IsDigit(u[|u| - 1]) && (u[|u| - 1] == '-' <==> i < 0) && x == u[..|u| - |Sign(i)|]
  {
  }

  lemma SignAndDigits(x: string, i: int)
    ensures x + Number(i) == x + Sign(i) + Decimal(Abs(i))
  {
    assert Number(i) == Sign(i) + Decimal(Abs(i));
  }

  lemma SignsEndApart(x: string, i: int, y: string, j: int)
    requires EndsInLetter(x) && EndsInLetter(y) && x + Sign(i) == y + Sign(j)
    ensures x == y && (i < 0 <==> j < 0)
  {
    SignEnds(x, i);
    SignEnds(y, j);
  }

  lemma DigitsAndSigns(x: string, i: int, y: string, j: int)
    requires EndsInLetter(x) && EndsInLetter(y) && x + Number(i) == y + Number(j)
    ensures x + Sign(i) == y + Sign(j) && Decimal(Abs(i)) == Decimal(Abs(j))
  {
    var u, v, d, e := x + Sign(i), y + Sign(j), Decimal(Abs(i)), Decimal(Abs(j));
    SignEnds(x, i);
    SignEnds(y, j);
    assert u + d == v + e by {
      SignAndDigits(x, i);
      SignAndDigits(y, j);
    }
    DecimalIsNumeral(Abs(i));
    DecimalIsNumeral(Abs(j));
    DigitsEnd(u, d, v, e);
  }

  lemma NumbersEndApart(x: string, i: int, y: string, j: int)
    requires EndsInLetter(x) && EndsInLetter(y) && x + Number(i) == y + Number(j)
    ensures i == j && x == y
  {
    DigitsAndSigns(x, i, y, j);
    SignsEndApart(x, i, y, j);
    DecimalInjective(Abs(i), Abs(j));
  }

  lemma Assoc(x: string, y: string, z: string)
    ensures x + (y + z) == (x + y) + z
  {
  }

  lemma TailParts(p: string, m: string, i: int, q: string, n: string, j: int)
    requires EndsInLetter(p + m) && EndsInLetter(q + n) && p + (m + Number(i)) == q + (n + Number(j))
    ensures i == j && p + m == q + n
  {
    Assoc(p, m, Number(i));
    Assoc(q, n, Number(j));
    NumbersEndApart(p + m, i, q + n, j);
  }

  /** Whatever stands before it, the state at the end of a string can be read off. */
  lemma TailUnique(p: string, s: State, q: string, t: State)
    requires p + Tail(s) == q + Tail(t)
    ensures s == t && p == q
  {
    LastLetter(p, s.status);
    LastLetter(q, t.status);
    TailParts(p, StatusName(s.status), s.incarnation, q, StatusName(t.status), t.incarnation);
    NamesEndApart(p, s.status, q, t.status);
  }

  lemma LastLetter(p: string, s: Status)
    ensures EndsInLetter(p + StatusName(s))
  {
    var x := p + StatusName(s);
    assert x[|x| - 1] == StatusName(s)[|StatusName(s)| - 1];
  }

  // ---- whole strings ----

  /** Everything before the last row is empty or ends with a separator. */
  ghost predicate Closed(x: string) {
    x == "" || x[|x| - 1] == ';'
  }

  lemma RowsClosed(names: seq<string>, v: View)
    requires forall a :: a in names ==> a in v
    ensures Closed(Rows(names, v)) && (names == [] <==> Rows(names, v) == "")
  {
  }

  /** Of two strings that end in a row without a separator inside, the last rows are the same if the strings are. */
  lemma LastRow(x: string, r: string, y: string, t: string)
    requires Closed(x) && Closed(y) && Names.Without(r, ';') && Names.Without(t, ';') && x + r == y + t
    ensures x == y && r == t
  {
    LongerRow(x, r, y, t);
    LongerRow(y, t, x, r);
    assert (x + r)[..|x|] == x && (y + t)[..|y|] == y && (x + r)[|x|..] == r && (y + t)[|y|..] == t;
  }

  lemma LongerRow(x: string, r: string, y: string, t: string)
    requires Closed(x) && Names.Without(t, ';')
    ensures |y| < |x| ==> x + r != y + t
  {
    if |y| < |x| {
      assert (x + r)[|x| - 1] == ';';
      if |x| - 1 < |y + t| {
        assert (y + t)[|x| - 1] == t[|x| - 1 - |y|];
      }
    }
  }

  lemma TailWithout(a: string, s: State)
    requires Names.Without(a, ';')
    ensures Names.Without(a + Tail(s), ';')
  {
    DecimalIsNumeral(Abs(s.incarnation));
    assert Number(s.incarnation) == Sign(s.incarnation) + Decimal(Abs(s.incarnation));
    var t := Tail(s);
    forall i | 0 <= i < |t| ensures t[i] != ';' {
      if i >= |StatusName(s.status)| {
        assert t[i] == Number(s.incarnation)[i - |StatusName(s.status)|];
      }
    }
  }

  /** What comes before the separator of the last row. */
  lemma RowsLast(names: seq<string>, v: View)
    requires names != [] && forall a :: a in names ==> a in v
    ensures var n := |names| - 1;
            DropLast(Rows(names, v)) == Rows(names[..n], v) + (names[n] + Tail(v[names[n]]))
  {
    var n := |names| - 1;
    var r := Rows(names[..n], v);
    assert Row(names[n], v[names[n]]) == names[n] + Tail(v[names[n]]) + ";";
    assert Rows(names, v) == r + (names[n] + Tail(v[names[n]])) + ";";
  }

  lemma DropLastOfClosed(x: string, y: string)
    requires Closed(x) && Closed(y) && DropLast(x) == DropLast(y) && x != "" && y != ""
    ensures x == y
  {
    assert x == x[..|x| - 1] + ";" && y == y[..|y| - 1] + ";";
  }

  lemma LastRowTells(x: string, a: string, s: State, y: string, b: string, t: State)
    requires Closed(x) && Closed(y) && Names.Without(a, ';') && Names.Without(b, ';')
    requires x + (a + Tail(s)) == y + (b + Tail(t))
    ensures x == y && a == b && s == t
  {
    TailWithout(a, s);
    TailWithout(b, t);
    LastRow(x, a + Tail(s), y, b + Tail(t));
    TailUnique(a, s, b, t);
  }

  ghost predicate Separable(a: seq<string>, v: View) {
    forall i :: 0 <= i < |a| ==> a[i] in v && Names.Without(a[i], ';')
  }

  lemma RowsWithoutLast(a: seq<string>, v: View, b: seq<string>, w: View)
    requires a != [] && b != [] && Separable(a, v) && Separable(b, w) && Rows(a, v) == Rows(b, w)
    ensures var m, n := |a| - 1, |b| - 1;
            a[m] == b[n] && v[a[m]] == w[b[n]] && Rows(a[..m], v) == Rows(b[..n], w)
  {
    var m, n := |a| - 1, |b| - 1;
    RowsLast(a, v);
    RowsLast(b, w);
    RowsClosed(a[..m], v);
    RowsClosed(b[..n], w);
    LastRowTells(Rows(a[..m], v), a[m], v[a[m]], Rows(b[..n], w), b[n], w[b[n]]);
  }

  lemma SnocSame(a: seq<string>, b: seq<string>)
    requires a != [] && b != [] && a[|a| - 1] == b[|b| - 1] && a[..|a| - 1] == b[..|b| - 1]
    ensures a == b
  {
    assert a == a[..|a| - 1] + [a[|a| - 1]] && b == b[..|b| - 1] + [b[|b| - 1]];
  }

  lemma SeparablePrefix(a: seq<string>, v: View, n: nat)
    requires Separable(a, v) && n <= |a|
    ensures Separable(a[..n], v)
  {
  }

  ghost predicate SameStates(a: seq<string>, v: View, w: View) {
    forall i :: 0 <= i < |a| ==> a[i] in v && a[i] in w && v[a[i]] == w[a[i]]
  }

  lemma AgreeSnoc(a: seq<string>, v: View, w: View)
    requires a != [] && SameStates(a[..|a| - 1], v, w)
    requires var x := a[|a| - 1]; x in v && x in w && v[x] == w[x]
    ensures SameStates(a, v, w)
  {
    forall i | 0 <= i < |a| - 1 ensures a[i] in v && a[i] in w && v[a[i]] == w[a[i]] {
      assert a[..|a| - 1][i] == a[i];
    }
  }

  lemma RowsEmpty(a: seq<string>, v: View)
    requires Separable(a, v)
    ensures Rows(a, v) == "" <==> a == []
  {
    RowsClosed(a, v);
  }

  /** If no address holds the separator, equal rows are rows of the same members in the same states. */
  lemma {:induction false} RowsTellApart(a: seq<string>, v: View, b: seq<string>, w: View)
    requires Separable(a, v) && Separable(b, w) && Rows(a, v) == Rows(b, w)
    ensures a == b && SameStates(a, v, w)
    decreases |a|
  {
    RowsEmpty(a, v);
    RowsEmpty(b, w);
    if a == [] {
    } else {
      var c, d := a[..|a| - 1], b[..|b| - 1];
      RowsWithoutLast(a, v, b, w);
      SeparablePrefix(a, v, |a| - 1);
      SeparablePrefix(b, w, |b| - 1);
      RowsTellApart(c, v, d, w);
      SnocSame(a, b);
      AgreeSnoc(a, v, w);
    }
  }

  lemma SameEnd(p: string, q: string, a: string)
    requires p + a == q + a
    ensures p == q
  {
    assert (p + a)[..|p|] == p && (q + a)[..|q|] == q;
  }

  lemma TailAfter(p: string, a: string, s: State, q: string, t: State)
    requires p + (a + Tail(s)) == q + (a + Tail(t))
    ensures s == t && p == q
  {
    Assoc(p, a, Tail(s));
    Assoc(q, a, Tail(t));
    TailUnique(p + a, s, q + a, t);
    SameEnd(p, q, a);
  }

  ghost predicate Both(a: seq<string>, v: View, w: View) {
    forall i :: 0 <= i < |a| ==> a[i] in v && a[i] in w
  }

  lemma SameWithoutLast(a: seq<string>, v: View, w: View)
    requires a != [] && Both(a, v, w) && Rows(a, v) == Rows(a, w)
    ensures var n := |a| - 1; v[a[n]] == w[a[n]] && Rows(a[..n], v) == Rows(a[..n], w)
  {
    var n := |a| - 1;
    RowsLast(a, v);
    RowsLast(a, w);
    TailAfter(Rows(a[..n], v), a[n], v[a[n]], Rows(a[..n], w), w[a[n]]);
  }

  /** The rows of the same members, in the same order, tell their states, whatever the addresses are. */
  lemma {:induction false} SameRowsSameStates(a: seq<string>, v: View, w: View)
    requires Both(a, v, w) && Rows(a, v) == Rows(a, w)
    ensures SameStates(a, v, w)
    decreases |a|
  {
    if a == [] {
    } else {
      var c := a[..|a| - 1];
      SameWithoutLast(a, v, w);
      BothPrefix(a, v, w, |a| - 1);
      SameRowsSameStates(c, v, w);
      AgreeSnoc(a, v, w);
    }
  }

  lemma BothPrefix(a: seq<string>, v: View, w: View, n: nat)
    requires Both(a, v, w) && n <= |a|
    ensures Both(a[..n], v, w)
  {
  }

  ghost predicate SeparatorFree(v: View) {
    forall a :: a in v ==> Names.Without(a, ';')
  }

  lemma StringsAreRows(v: View, w: View)
    requires ChecksumString(v) == ChecksumString(w)
    ensures var x, y := NonTombstones(v), NonTombstones(w);
            Rows(Names.Sorted(x.Keys), x) == Rows(Names.Sorted(y.Keys), y)
  {
    var x, y := NonTombstones(v), NonTombstones(w);
    var a, b := Names.Sorted(x.Keys), Names.Sorted(y.Keys);
    RowsClosed(a, x);
    RowsClosed(b, y);
    if a != [] && b != [] {
      DropLastOfClosed(Rows(a, x), Rows(b, y));
    } else {
      if a != [] { RowsLast(a, x); }
      if b != [] { RowsLast(b, y); }
    }
  }

  /** The checksum string tells apart any two sets of live entries, unless an address holds its separator. */
  lemma ChecksumStringTells(v: View, w: View)
    requires SeparatorFree(v) && SeparatorFree(w)
    ensures ChecksumString(v) == ChecksumString(w) <==> NonTombstones(v) == NonTombstones(w)
  {
    var x, y := NonTombstones(v), NonTombstones(w);
    if ChecksumString(v) == ChecksumString(w) {
      var a, b := Names.Sorted(x.Keys), Names.Sorted(y.Keys);
      StringsAreRows(v, w);
      RowsTellApart(a, x, b, y);
      forall z ensures (z in x <==> z in y) && (z in x ==> x[z] == y[z]) {
        assert (z in x <==> z in a) && (z in y <==> z in b);
      }
    }
  }

  lemma StringsTell(v: View, w: View)
    ensures SeparatorFree(v) && SeparatorFree(w) ==>
              (ChecksumString(v) == ChecksumString(w) <==> NonTombstones(v) == NonTombstones(w))
  {
    if SeparatorFree(v) && SeparatorFree(w) {
      ChecksumStringTells(v, w);
    }
  }

  /** Among sets of live entries about the same addresses, it always does. */
  lemma ChecksumStringTellsStates(v: View, w: View)
    requires NonTombstones(v).Keys == NonTombstones(w).Keys
    ensures ChecksumString(v) == ChecksumString(w) <==> NonTombstones(v) == NonTombstones(w)
  {
    var x, y := NonTombstones(v), NonTombstones(w);
    if ChecksumString(v) == ChecksumString(w) {
      StringsAreRows(v, w);
      var a := Names.Sorted(x.Keys);
      SameRowsSameStates(a, x, y);
      forall z | z in x ensures x[z] == y[z] {
        assert z in a;
      }
    }
  }
  // ---- what the string looks like ----

  /** A member in the string. */
  function Text(a: string, s: State): string {
    a + StatusName(s.status) + Number(s.incarnation)
  }

  function Texts(names: seq<string>, v: View): seq<string>
    requires forall i :: 0 <= i < |names| ==> names[i] in v
  {
    seq(|names|, i requires 0 <= i < |names| => Text(names[i], v[names[i]]))
  }

  lemma {:induction false} RowsAreJoined(names: seq<string>, v: View)
    requires forall i :: 0 <= i < |names| ==> names[i] in v
    ensures Rows(names, v) == if names == [] then "" else Names.Join(Texts(names, v), ";") + ";"
    decreases |names|
  {
    if names == [] {
    } else {
      var c, a := names[..|names| - 1], names[|names| - 1];
      RowsAreJoined(c, v);
      RowsLastText(names, v);
      TextsSnoc(names, v);
      JoinedSnoc(Texts(c, v), Text(a, v[a]));
      assert Texts(c, v) == [] <==> c == [];
    }
  }

  lemma RowsLastText(names: seq<string>, v: View)
    requires names != [] && forall i :: 0 <= i < |names| ==> names[i] in v
    ensures var c, a := names[..|names| - 1], names[|names| - 1];
            Rows(names, v) == Rows(c, v) + (Text(a, v[a]) + ";")
  {
    RowIsText(names[|names| - 1], v[names[|names| - 1]]);
  }

  lemma TextsSnoc(names: seq<string>, v: View)
    requires names != [] && forall i :: 0 <= i < |names| ==> names[i] in v
    ensures var n := |names| - 1; Texts(names, v) == Texts(names[..n], v) + [Text(names[n], v[names[n]])]
  {
  }

  lemma JoinedSnoc(r: seq<string>, x: string)
    ensures Names.Join(r + [x], ";") + ";" == (if r == [] then "" else Names.Join(r, ";") + ";") + (x + ";")
  {
    Names.JoinSnoc(r, x, ";");
    if r != [] {
      var j := Names.Join(r, ";");
      assert j + ";" + x + ";" == j + ";" + (x + ";");
    }
  }

  lemma RowIsText(a: string, s: State)
    ensures Row(a, s) == Text(a, s) + ";"
  {
  }

  /** The string joins address, status and incarnation of each live member, in address order, by the separator. */
  lemma ChecksumStringIsJoined(v: View, names: seq<string>)
    requires Names.Lists(names, NonTombstones(v).Keys)
    ensures (forall i :: 0 <= i < |names| ==> names[i] in v)
    ensures ChecksumString(v) == Names.Join(Texts(names, v), ";")
  {
    var live := NonTombstones(v);
    Names.ListsUnique(names, Names.Sorted(live.Keys), live.Keys);
    forall i | 0 <= i < |names| ensures names[i] in live { assert names[i] in names; }
    RowsAreJoined(names, live);
    assert Texts(names, live) == Texts(names, v);
    if names == [] {
      assert Texts(names, v) == [];
    }
  }

  // ---- an example ----

  lemma TextIs(a: string, s: State, digit: char)
    requires 0 <= s.incarnation < 10 && digit == s.incarnation as char + '0'
    ensures Text(a, s) == a + StatusName(s.status) + [digit]
  {
  }

  /** Five members, one in each status. */
  function FiveMembers(): View {
    map["a" := State(1, Alive), "b" := State(2, Suspect), "c" := State(3, Faulty), "d" := State(4, Leave),
        "e" := State(5, Tombstone)]
  }

  lemma FourNames()
    ensures Names.Lists(["a", "b", "c", "d"], NonTombstones(FiveMembers()).Keys)
  {
    var names := ["a", "b", "c", "d"];
    assert NonTombstones(FiveMembers()).Keys == {"a", "b", "c", "d"};
    assert names[0] == "a" && names[1] == "b" && names[2] == "c" && names[3] == "d";
    assert forall x :: x in names <==> x in {"a", "b", "c", "d"};
    forall i, j | 0 <= i < j < 4 ensures StrLess(names[i], names[j]) {
      assert names[i][0] < names[j][0];
    }
  }

  lemma FourTexts()
    ensures var v := FiveMembers();
            && Text("a", v["a"]) == "aalive1" && Text("b", v["b"]) == "bsuspect2"
            && Text("c", v["c"]) == "cfaulty3" && Text("d", v["d"]) == "dleave4"
  {
    TextIs("a", State(1, Alive), '1');
    TextIs("b", State(2, Suspect), '2');
    TextIs("c", State(3, Faulty), '3');
    TextIs("d", State(4, Leave), '4');
  }

  /** Their checksum string. */
  lemma ChecksumStringExample()
    ensures ChecksumString(FiveMembers()) == Names.Join(["aalive1", "bsuspect2", "cfaulty3", "dleave4"], ";")
  {
    var v, names := FiveMembers(), ["a", "b", "c", "d"];
    FourNames();
    FourTexts();
    ChecksumStringIsJoined(v, names);
    var t := Texts(names, v);
    assert t[0] == Text("a", v["a"]) && t[1] == Text("b", v["b"]);
    assert t[2] == Text("c", v["c"]) && t[3] == Text("d", v["d"]);
    assert t == [t[0], t[1], t[2], t[3]];
  }
}
