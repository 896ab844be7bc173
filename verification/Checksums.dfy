/** Membership checksum strings (lib/membership/index.js:115-144). */
module Checksums {
  import opened Members
  import Names
  import opened Numerals

  function StatusName(s: Status): string {
    match s
    case Alive => "alive"
    case Suspect => "suspect"
    case Faulty => "faulty"
    case Leave => "leave"
    case Tombstone => "tombstone"
  }

  function Row(address: string, s: State): string {
    address + StatusName(s.status) + Number(s.incarnation) + ";"
  }

  /** The entries that count for the checksum. */
  function NonTombstones(v: View): View {
    map a | a in v && !v[a].status.Tombstone? :: v[a]
  }

  function Rows(names: seq<string>, v: View): string
    requires forall a :: a in names ==> a in v
  {
    if names == [] then "" else Rows(names[..|names| - 1], v) + Row(names[|names| - 1], v[names[|names| - 1]])
  }

  lemma RowsSnoc(names: seq<string>, a: string, v: View)
    requires a in v && forall x :: x in names ==> x in v
    ensures Rows(names + [a], v) == Rows(names, v) + Row(a, v[a])
  {
    assert (names + [a])[..|names|] == names;
  }

  /** `s.slice(0, -1)` */
  function DropLast(s: string): string {
    if s == "" then "" else s[..|s| - 1]
  }

  /** The checksum string of a set of entries: its non-tombstones, by address. */
  ghost function ChecksumString(v: View): string {
    var live := NonTombstones(v);
    DropLast(Rows(Names.Sorted(live.Keys), live))
  }

  ghost function LiveAmong(v: View, names: seq<string>): set<string> {
    set a | a in NonTombstones(v) && a in names
  }

  lemma LiveAmongSnoc(v: View, names: seq<string>, a: string)
    requires a in v
    ensures LiveAmong(v, names + [a]) == LiveAmong(v, names) + if v[a].status.Tombstone? then {} else {a}
  {
  }

  /** `s` holds the rows of the first `i` addresses; `done` names those that are not tombstones. */
  ghost predicate RowsUpTo(done: seq<string>, addresses: seq<string>, i: nat, v: View, s: string) {
    && i <= |addresses| && Names.Lists(addresses, v.Keys) && Names.Lists(done, LiveAmong(v, addresses[..i]))
    && (forall a :: a in done ==> a in NonTombstones(v)) && s == Rows(done, NonTombstones(v))
  }

  lemma TombstoneStep(done: seq<string>, addresses: seq<string>, i: nat, v: View, s: string)
    requires RowsUpTo(done, addresses, i, v, s) && i < |addresses| && addresses[i] in v
    requires v[addresses[i]].status.Tombstone?
    ensures RowsUpTo(done, addresses, i + 1, v, s)
  {
    var a := addresses[i];
    LiveAmongSnoc(v, addresses[..i], a);
    assert addresses[..i + 1] == addresses[..i] + [a];
    assert LiveAmong(v, addresses[..i]) + {} == LiveAmong(v, addresses[..i]);
  }

  lemma LiveStep(done: seq<string>, addresses: seq<string>, i: nat, v: View, s: string)
    requires RowsUpTo(done, addresses, i, v, s) && i < |addresses| && addresses[i] in v
    requires !v[addresses[i]].status.Tombstone?
    ensures RowsUpTo(done + [addresses[i]], addresses, i + 1, v, s + Row(addresses[i], v[addresses[i]]))
  {
    var a := addresses[i];
    LiveAmongSnoc(v, addresses[..i], a);
    assert addresses[..i + 1] == addresses[..i] + [a];
    Names.NotBefore(addresses, v.Keys, i);
    Names.Append(done, a, LiveAmong(v, addresses[..i]));
    RowsSnoc(done, a, NonTombstones(v));
  }

  lemma RowsStep(done: seq<string>, addresses: seq<string>, i: nat, v: View, s: string)
    requires RowsUpTo(done, addresses, i, v, s) && i < |addresses|
    ensures var a := addresses[i];
            a in v &&
            if v[a].status.Tombstone? then RowsUpTo(done, addresses, i + 1, v, s)
            else RowsUpTo(done + [a], addresses, i + 1, v, s + Row(a, v[a]))
  {
    assert addresses[i] in addresses;
    if v[addresses[i]].status.Tombstone? {
      TombstoneStep(done, addresses, i, v, s);
    } else {
      LiveStep(done, addresses, i, v, s);
    }
  }

  lemma RowsEnd(done: seq<string>, addresses: seq<string>, v: View, s: string)
    requires RowsUpTo(done, addresses, |addresses|, v, s)
    ensures DropLast(s) == ChecksumString(v)
  {
    var live := NonTombstones(v);
    assert addresses[..|addresses|] == addresses;
    assert LiveAmong(v, addresses) == live.Keys;
    Names.ListsUnique(done, Names.Sorted(live.Keys), live.Keys);
  }
}
