/** What insertion and removal mean for a sorted list of entries. */
module RBContents {
  import opened Points
  import opened RBModel

  ghost predicate HasKey(s: seq<Entry>, key: Point) {
    exists i :: 0 <= i < |s| && s[i].key == key
  }

  /** The list with `e` added in its place, or unchanged when its key is there already. */
  ghost function Put(s: seq<Entry>, e: Entry): seq<Entry> {
    if s == [] then [e]
    else if Less(e.key, s[0].key) then [e] + s
    else if e.key == s[0].key then s
    else [s[0]] + Put(s[1..], e)
  }

  /** The list without the entry at `key`. */
  ghost function Without(s: seq<Entry>, key: Point): seq<Entry> {
    if s == [] then []
    else if s[0].key == key then Without(s[1..], key)
    else [s[0]] + Without(s[1..], key)
  }

  lemma {:induction false} PutBetween(b: seq<Entry>, e: Entry, a: seq<Entry>)
    requires AllBelow(b, e.key) && AllAbove(a, e.key)
    ensures Put(b + a, e) == b + [e] + a && !HasKey(b + a, e.key)
  {
    if b == [] {
      assert b + a == a;
      if a != [] { CompareTotal(a[0].key, e.key); }
      forall i | 0 <= i < |a| ensures a[i].key != e.key { CompareTotal(a[i].key, e.key); }
    } else {
      CompareTotal(b[0].key, e.key);
      assert (b + a)[1..] == b[1..] + a;
      forall i | 0 <= i < |b[1..]| ensures Less(b[1..][i].key, e.key) { assert b[1..][i] == b[i + 1]; }
      PutBetween(b[1..], e, a);
      assert b + [e] + a == [b[0]] + (b[1..] + [e] + a);
      forall i | 0 <= i < |b + a| ensures (b + a)[i].key != e.key {
        if i > 0 { assert (b + a)[i] == (b[1..] + a)[i - 1]; }
      }
    }
  }

  lemma {:induction false} PutPresent(s: seq<Entry>, e: Entry)
    requires Sorted(s) && HasKey(s, e.key)
    ensures Put(s, e) == s
  {
    var i :| 0 <= i < |s| && s[i].key == e.key;
    CompareTotal(s[0].key, e.key);
    if i == 0 {
    } else {
      assert Less(s[0].key, s[i].key);
      assert s[1..][i - 1].key == e.key;
      SortedTail(s);
      PutPresent(s[1..], e);
      assert s == [s[0]] + s[1..];
    }
  }

  lemma SortedTail(s: seq<Entry>)
    requires Sorted(s) && s != []
    ensures Sorted(s[1..])
  {
  }

  lemma {:induction false} WithoutAbsent(s: seq<Entry>, key: Point)
    requires !HasKey(s, key)
    ensures Without(s, key) == s
  {
    if s == [] {
    } else {
      assert s[0].key != key;
      assert forall i :: 0 <= i < |s[1..]| ==> s[1..][i] == s[i + 1];
      WithoutAbsent(s[1..], key);
      assert s == [s[0]] + s[1..];
    }
  }

  lemma {:induction false} WithoutBetween(b: seq<Entry>, e: Entry, a: seq<Entry>)
    requires AllBelow(b, e.key) && AllAbove(a, e.key)
    ensures Without(b + [e] + a, e.key) == b + a && HasKey(b + [e] + a, e.key)
  {
    var s := b + [e] + a;
    assert s[|b|] == e;
    if b == [] {
      assert s[1..] == a && b + a == a;
      forall i | 0 <= i < |a| ensures a[i].key != e.key { CompareTotal(a[i].key, e.key); }
      WithoutAbsent(a, e.key);
    } else {
      CompareTotal(b[0].key, e.key);
      assert s[1..] == b[1..] + [e] + a;
      forall i | 0 <= i < |b[1..]| ensures Less(b[1..][i].key, e.key) { assert b[1..][i] == b[i + 1]; }
      WithoutBetween(b[1..], e, a);
      assert b + a == [b[0]] + (b[1..] + a);
    }
  }

  lemma PutSorted(b: seq<Entry>, e: Entry, a: seq<Entry>)
    requires Sorted(b + a) && AllBelow(b, e.key) && AllAbove(a, e.key)
    ensures Sorted(b + [e] + a)
  {
    var s := b + [e] + a;
    forall i, j | 0 <= i < j < |s| ensures Less(s[i].key, s[j].key) {
      if i < |b| && j > |b| {
        assert s[i] == (b + a)[i] && s[j] == (b + a)[j - 1];
      } else if j < |b| {
        assert s[i] == (b + a)[i] && s[j] == (b + a)[j];
      } else if i > |b| {
        assert s[i] == (b + a)[i - 1] && s[j] == (b + a)[j - 1];
      }
    }
  }

  lemma WithoutSorted(b: seq<Entry>, e: Entry, a: seq<Entry>)
    requires Sorted(b + [e] + a)
    ensures Sorted(b + a)
  {
    var s := b + [e] + a;
    forall i, j | 0 <= i < j < |b + a| ensures Less((b + a)[i].key, (b + a)[j].key) {
      var i' := if i < |b| then i else i + 1;
      var j' := if j < |b| then j else j + 1;
      assert (b + a)[i] == s[i'] && (b + a)[j] == s[j'];
    }
  }
}
