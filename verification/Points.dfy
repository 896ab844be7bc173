/** Replica points of the hash ring and the total order that the ring's tree uses
    (`HashRing.comparator`, lib/ring/index.js:38-57). */
module Points {

  /** JavaScript's `<` on strings: lexicographic by character. */
  predicate StrLess(a: string, b: string) {
    if b == [] then false
    else if a == [] then true
    else if a[0] != b[0] then a[0] < b[0]
    else StrLess(a[1..], b[1..])
  }

  lemma {:induction false} StrLessTotal(a: string, b: string)
    ensures StrLess(a, b) || StrLess(b, a) || a == b
    ensures !(StrLess(a, b) && StrLess(b, a))
    ensures a == b ==> !StrLess(a, b)
    decreases |a|
  {
    if a != [] && b != [] && a[0] == b[0] {
      StrLessTotal(a[1..], b[1..]);
      if a[1..] == b[1..] {
        assert a == [a[0]] + a[1..] && b == [b[0]] + b[1..];
      }
    }
  }

  lemma {:induction false} StrLessTrans(a: string, b: string, c: string)
    requires StrLess(a, b) && StrLess(b, c)
    ensures StrLess(a, c)
    decreases |a|
  {
    if a != [] && a[0] == b[0] && b[0] == c[0] {
      StrLessTrans(a[1..], b[1..], c[1..]);
    }
  }

  /** The one that has the smaller character where they first differ, or that is a proper prefix, is less. */
  lemma {:induction false} StrLessMeans(a: string, b: string)
    ensures StrLess(a, b) <==>
            exists k :: 0 <= k <= |a| && k < |b| && a[..k] == b[..k] && (k == |a| || a[k] < b[k])
    decreases |a|
  {
    if a == [] || b == [] {
      assert b != [] ==> a[..0] == b[..0];
    } else if a[0] != b[0] {
      assert a[..0] == b[..0];
      forall k | 0 < k <= |a| && k < |b| ensures a[..k] != b[..k] {
        assert a[..k][0] == a[0] && b[..k][0] == b[0];
      }
    } else {
      StrLessMeans(a[1..], b[1..]);
      var c, d := a[1..], b[1..];
      if k :| 0 <= k <= |c| && k < |d| && c[..k] == d[..k] && (k == |c| || c[k] < d[k]) {
        assert a[..k + 1] == [a[0]] + c[..k] && b[..k + 1] == [b[0]] + d[..k];
      }
      if k :| 0 <= k <= |a| && k < |b| && a[..k] == b[..k] && (k == |a| || a[k] < b[k]) {
        assert k > 0 && c[..k - 1] == a[..k][1..] && d[..k - 1] == b[..k][1..];
      }
    }
  }

  /** A key of the ring's tree. A lookup key has no address, which the comparator reads as ''. */
  datatype Point = Point(hash: int, address: string)

  /** `HashRing.comparator`. */
  function Compare(a: Point, b: Point): int {
    if a.hash - b.hash != 0 then a.hash - b.hash
    else if a.address == b.address then 0
    else if StrLess(b.address, a.address) then 1
    else -1
  }

  predicate Less(a: Point, b: Point) {
    Compare(a, b) < 0
  }

  /** The comparator is a strict total order with 0 exactly on equal points. */
  lemma CompareTotal(a: Point, b: Point)
    ensures Compare(a, b) == 0 <==> a == b
    ensures Compare(a, b) > 0 <==> Less(b, a)
    ensures Less(a, b) || Less(b, a) || a == b
    ensures !(Less(a, b) && Less(b, a))
    ensures !Less(a, a)
  {
    StrLessTotal(a.address, b.address);
    StrLessTotal(b.address, a.address);
  }

  lemma LessTrans(a: Point, b: Point, c: Point)
    requires Less(a, b) && Less(b, c)
    ensures Less(a, c)
  {
    StrLessTotal(a.address, b.address);
    StrLessTotal(b.address, c.address);
    StrLessTotal(a.address, c.address);
    if StrLess(a.address, b.address) && StrLess(b.address, c.address) {
      StrLessTrans(a.address, b.address, c.address);
    }
  }

  /** The empty address is the least one, so a lookup key sits before every point of its hash. */
  lemma EmptyAddressLeast(h: int, p: Point)
    ensures Less(p, Point(h, "")) <==> p.hash < h
  {
    StrLessTotal(p.address, "");
  }
}
