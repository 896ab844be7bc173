/** Timed state transitions (lib/gossip/state_transitions.js:26-177). A timer is the entry the source keeps in
    `timers`; it stays there after it fired, until it is cancelled or replaced. */
module Transitions {
  import opened Members

  datatype Timer = Timer(state: Status, incarnation: int, pending: bool)

  type Timers = map<string, Timer>

  function Scheduled(timers: Timers, enabled: bool, me: string, c: Change): Timers {
    if !enabled || c.address == me then timers
    else if c.address in timers && timers[c.address].state == c.status then timers
    else timers[c.address := Timer(c.status, c.incarnation, true)]
  }

  /** The timers after an update has been handled. */
  function Handled(timers: Timers, enabled: bool, me: string, c: Change): Timers {
    match c.status
    case Alive | Leave => timers - {c.address}
    case Suspect | Faulty | Tombstone => Scheduled(timers, enabled, me, c)
  }

  /** How the timer of an address reacts to an update about it: alive and leave cancel it; any other status leaves a
      timer in that status alone and arms one for the update's incarnation in place of none or another, except for the
      local member and while transitions are disabled. */
  ghost predicate ReactsAt(before: Timers, enabled: bool, me: string, c: Change, after: Timers) {
    var a := c.address;
    if c.status in {Alive, Leave} then a !in after
    else if !enabled || a == me then (a in after <==> a in before) && (a in before ==> after[a] == before[a])
    else
      && a in after && after[a].state == c.status
      && (if a in before && before[a].state == c.status then after[a] == before[a]
          else after[a].incarnation == c.incarnation && after[a].pending)
  }

  /** The timers of all other addresses stay. */
  ghost predicate OthersStay(before: Timers, addresses: set<string>, after: Timers) {
    forall a :: a !in addresses ==> (a in after <==> a in before) && (a in before ==> after[a] == before[a])
  }

  lemma HandledReacts(timers: Timers, enabled: bool, me: string, c: Change)
    ensures ReactsAt(timers, enabled, me, c, Handled(timers, enabled, me, c))
    ensures OthersStay(timers, {c.address}, Handled(timers, enabled, me, c))
  {
  }

  function HandledAll(timers: Timers, enabled: bool, me: string, updates: seq<Change>): Timers {
    if updates == [] then timers
    else Handled(HandledAll(timers, enabled, me, updates[..|updates| - 1]), enabled, me, updates[|updates| - 1])
  }

  /** What a timer's transition makes of its member, unless it evicts it. */
  function TargetOf(state: Status): Status {
    if state.Suspect? then Faulty else Tombstone
  }

  class StateTransitions {
    const whoami: string
    var enabled: bool
    var timers: Timers

    constructor (whoami: string)
      ensures this.whoami == whoami && enabled && timers == map[]
    {
      this.whoami, enabled, timers := whoami, true, map[];
    }

    method Enable()
      modifies this`enabled
      ensures enabled
    {
      if enabled {
        return;
      }
      enabled := true;
    }

    method HandleUpdate(update: Change)
      modifies this`timers
      ensures timers == Handled(old(timers), enabled, whoami, update)
      ensures ReactsAt(old(timers), enabled, whoami, update, timers)
      ensures OthersStay(old(timers), {update.address}, timers)
    {
      HandledReacts(timers, enabled, whoami, update);
      match update.status {
        case Alive => Cancel(update.address);
        case Leave => Cancel(update.address);
        case Suspect => Schedule(update, Suspect);
        case Faulty => Schedule(update, Faulty);
        case Tombstone => Schedule(update, Tombstone);
      }
    }

    method Schedule(member: Change, state: Status)
      modifies this`timers
      ensures timers == Scheduled(old(timers), enabled, whoami, member.(status := state))
    {
      if !enabled {
        return;
      }
      if member.address == whoami {
        return;
      }
      if member.address in timers {
        if timers[member.address].state == state {
          return;
        }
        Cancel(member.address);
      }
      timers := timers[member.address := Timer(state, member.incarnation, true)];
    }

    method Cancel(address: string)
      modifies this`timers
      ensures timers == old(timers) - {address}
    {
      if address !in timers {
        assert timers - {address} == timers;
        return;
      }
      timers := timers - {address};
    }

    /** A pending timer goes off; its entry stays. */
    method Fire(address: string) returns (timer: Timer)
      requires address in timers && timers[address].pending
      modifies this`timers
      ensures timer == old(timers)[address] && timers == old(timers)[address := timer.(pending := false)]
    {
      timer := timers[address];
      timers := timers[address := timer.(pending := false)];
    }

    method Disable()
      modifies this`enabled, this`timers
      ensures !enabled && timers == map[]
    {
      enabled := false;
      var timerKeys := timers.Keys;
      while timerKeys != {}
        invariant timers.Keys == timerKeys && !enabled
        decreases timerKeys
      {
        var timerKey :| timerKey in timerKeys;
        timers := timers - {timerKey};
        timerKeys := timerKeys - {timerKey};
      }
    }
  }
}
