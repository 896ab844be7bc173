/** What one node's list of distinct addresses makes of another node's entries. */
module Exchanges {
  import opened Wrappers
  import opened Members
  import opened Merging
  import opened Disseminations
  import opened Checksums

  /** One change met by an entry that is not the local one. */
  function Once(cur: Option<State>, c: Change): Option<State> {
    if ShouldProcessGossip(cur, c) then Some(StateOf(c)) else cur
  }

  lemma {:induction false} UpdateDistinct(v: View, me: string, l: seq<Change>, o: Oracle, k: nat)
    requires me in v && DistinctAddresses(l) && k <= |l|
    ensures var r := UpdateAll(v, me, l[..k], o).view;
            && (forall i :: 0 <= i < k && l[i].address != me ==>
              Find(r, l[i].address) == Once(Find(v, l[i].address), l[i]))
            && (forall i :: 0 <= i < k && l[i].address == me ==>
                  r[me] == if ShouldProcessGossip(Some(v[me]), l[i]) then State(o.clock(i), v[me].status) else v[me])
            && (forall a :: (forall i :: 0 <= i < k ==> l[i].address != a) ==> Find(r, a) == Find(v, a))
  {
    if k == 0 {
    } else {
      UpdateDistinct(v, me, l, o, k - 1);
      assert l[..k][..k - 1] == l[..k - 1] && l[..k][k - 1] == l[k - 1];
      assert Find(UpdateAll(v, me, l[..k - 1], o).view, l[k - 1].address) == Find(v, l[k - 1].address);
    }
  }

  /** The entries `v` of node `me` after it met every entry of an index; `now` is the clock it may refute with. */
  function Met(v: View, me: string, idx: Index, now: int): View
    requires me in v
  {
    map a | a in v.Keys + idx.Keys && (a in v || !idx[a].status.Tombstone?) :: MetAt(v, me, idx, now, a)
  }

  function MetAt(v: View, me: string, idx: Index, now: int, a: string): State
    requires me in v && (a in v || a in idx)
  {
    if a !in idx then v[a]
    else if a !in v then StateOf(idx[a])
    else if !Overrides(StateOf(idx[a]), v[a]) then v[a]
    else if a == me then State(now, v[me].status)
    else StateOf(idx[a])
  }

  /** Applying a listing of an index does just that, whatever the order of the list. */
  lemma ListingMeets(v: View, me: string, l: seq<Change>, idx: Index, o: Oracle) returns (i: nat)
    requires me in v && Lists(l, idx) && forall a :: a in idx ==> idx[a].address == a
    ensures UpdateAll(v, me, l, o).view == Met(v, me, idx, o.clock(i))
  {
    i := 0;
    if me in idx {
      i :| 0 <= i < |l| && l[i].address == me;
    }
    var r := UpdateAll(v, me, l, o).view;
    forall a ensures Find(r, a) == Find(Met(v, me, idx, o.clock(i)), a) {
      MeetsAt(v, me, l, idx, o, i, a);
    }
    SameView(r, Met(v, me, idx, o.clock(i)));
  }

  lemma MeetsAt(v: View, me: string, l: seq<Change>, idx: Index, o: Oracle, i: nat, a: string)
    requires me in v && Lists(l, idx) && forall x :: x in idx ==> idx[x].address == x
    requires me in idx ==> i < |l| && l[i].address == me
    ensures Find(UpdateAll(v, me, l, o).view, a) == Find(Met(v, me, idx, o.clock(i)), a)
  {
    if a in idx {
      var j :| 0 <= j < |l| && l[j].address == a;
      HeardAt(v, me, l, idx, o, if a == me then i else j);
    } else {
      UnheardAt(v, me, l, idx, o, a);
    }
  }

  lemma HeardAt(v: View, me: string, l: seq<Change>, idx: Index, o: Oracle, j: nat)
    requires me in v && Lists(l, idx) && j < |l| && forall a :: a in idx ==> idx[a].address == a
    ensures Find(UpdateAll(v, me, l, o).view, l[j].address) == Find(Met(v, me, idx, o.clock(j)), l[j].address)
  {
    UpdateDistinct(v, me, l, o, |l|);
    assert l[..|l|] == l && l[j] == idx[l[j].address];
  }

  lemma UnheardAt(v: View, me: string, l: seq<Change>, idx: Index, o: Oracle, a: string)
    requires me in v && Lists(l, idx) && a !in idx
    ensures Find(UpdateAll(v, me, l, o).view, a) == Find(v, a)
  {
    UpdateDistinct(v, me, l, o, |l|);
    assert l[..|l|] == l;
    assert forall j :: 0 <= j < |l| ==> l[j].address != a;
  }

  lemma SameView(v: View, w: View)
    requires forall a :: Find(v, a) == Find(w, a)
    ensures v == w
  {
    forall a ensures a in v <==> a in w {
      assert Find(v, a) == Find(w, a);
    }
    forall a | a in v ensures v[a] == w[a] {
      assert Find(v, a) == Find(w, a);
    }
  }

  function LiveState(v: View, a: string): Option<State> {
    if a in v && !v[a].status.Tombstone? then Some(v[a]) else None
  }

  lemma SameLive(v: View, w: View)
    requires forall a :: LiveState(v, a) == LiveState(w, a)
    ensures NonTombstones(v) == NonTombstones(w) && ChecksumString(v) == ChecksumString(w)
  {
    forall a ensures a in NonTombstones(v) <==> a in NonTombstones(w) {
      assert LiveState(v, a) == LiveState(w, a);
    }
    forall a | a in NonTombstones(v) ensures NonTombstones(v)[a] == NonTombstones(w)[a] {
      assert LiveState(v, a) == LiveState(w, a);
    }
    assert NonTombstones(v) == NonTombstones(w);
  }

  /** `v` and `w` after an exchange: A meets everything B has, B meets everything A has by then or had before. */
  function FirstMeets(v: View, me: string, w: View, them: string, now: int): View
    requires me in v
  {
    Met(v, me, FullSyncIndex(them, w), now)
  }

  /** If neither side's list overrides the other's own entry, the exchange leaves equal live entries. */
  lemma ExchangeAt(va: View, a: string, vb: View, b: string, nowA: int, nowB: int, late: bool, x: string)
    requires a in va && b in vb && a != b
    requires a in vb ==> !Overrides(vb[a], va[a])
    requires b in va ==> !Overrides(va[b], vb[b])
    ensures var va' := FirstMeets(va, a, vb, b, nowA);
            var vb' := FirstMeets(vb, b, if late then va' else va, a, nowB);
            LiveState(va', x) == LiveState(vb', x)
  {
    if x in va && x in vb {
      OverridesTotal(va[x], vb[x]);
    }
  }
}
