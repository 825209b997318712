/** The lease lock: one record in the store, any number of lockers, one transaction per step. */
module Locker {
  import opened ByteStrings
  import opened Json

  type Id = Bytes

  datatype LockMeta = LockMeta(id: Id, start: int, lastUpdate: int)

  // ----- the decisions of one transaction -----

  /** Nanoseconds; the zero time is the beginning of the year 1. */
  const ZERO_TIME := -62135596800_000_000_000
  const MAX_DURATION := 0x7FFF_FFFF_FFFF_FFFF

  /** A missing record reads as the zero value: the transaction's Get reports no error for it. */
  const NO_META := LockMeta([], ZERO_TIME, ZERO_TIME)

  /** time.Since saturates. */
  function Since(t: int, now: int): int {
    if now - t > MAX_DURATION then MAX_DURATION else now - t
  }

  predicate Expired(r: LockMeta, now: int, lease: nat) {
    now - r.lastUpdate > 4 * lease
  }

  /** Nobody holds the record, or somebody else who has let it expire. */
  predicate Free(record: Option<LockMeta>, id: Id, now: int, lease: nat) {
    record.None? || (Expired(record.value, now, lease) && record.value.id != id)
  }

  predicate Owns(record: Option<LockMeta>, id: Id) {
    record.Some? && record.value.id == id
  }

  class LockRecord {
    var record: Option<LockMeta>

    constructor ()
      ensures record == None
    {
      record := None;
    }
  }

  /** One locker; `keepalives` counts its keepalive loops that are still running. */
  class LeaseLock {
    const id: Id
    const store: LockRecord
    const leaseInterval: nat
    var start: int
    var keepalives: nat

    ghost predicate Valid() {
      id != [] && 4 * leaseInterval < MAX_DURATION
    }

    constructor (id: Id, store: LockRecord, leaseInterval: nat)
      requires id != [] && 4 * leaseInterval < MAX_DURATION
      ensures Valid() && this.id == id && this.store == store && this.leaseInterval == leaseInterval && keepalives == 0
    {
      this.id, this.store, this.leaseInterval := id, store, leaseInterval;
      start, keepalives := 0, 0;
    }

    /** Predicts what TryLock would do. */
    method IsLocked(now: nat) returns (isLocked: bool)
      requires Valid()
      ensures isLocked <==> !Free(store.record, id, now, leaseInterval)
    {
      var current := store.record.GetOr(NO_META);
      if Since(current.lastUpdate, now) > 4 * leaseInterval && current.id != id { return false; }
      return true;
    }

    method TryLock(now: nat) returns (gotLock: bool)
      requires Valid()
      modifies this`start, this`keepalives, store
      ensures gotLock <==> Free(old(store.record), id, now, leaseInterval)
      ensures start == now && keepalives == old(keepalives) + (if gotLock then 1 else 0)
      ensures store.record == if gotLock then Some(LockMeta(id, now, now)) else old(store.record)
    {
      start := now;
      gotLock := false;
      var current := store.record.GetOr(NO_META);
      if Since(current.lastUpdate, now) > 4 * leaseInterval && current.id != id {
        SetLock(now);
        gotLock := true;
      }
      if gotLock { keepalives := keepalives + 1; }
    }

    method SetLock(now: nat)
      modifies store
      ensures store.record == Some(LockMeta(id, start, now))
    {
      store.record := Some(LockMeta(id, start, now));
    }

    /** The ticker branch of the keepalive loop; a missing record cannot be parsed and ends the loop. */
    method KeepaliveTick(now: nat)
      requires keepalives > 0
      modifies this`keepalives, store
      ensures store.record == if Owns(old(store.record), id) then Some(LockMeta(id, start, now)) else old(store.record)
      ensures keepalives == old(keepalives) - if old(store.record).None? then 1 else 0
    {
      if store.record.None? {
        keepalives := keepalives - 1;
        return;
      }
      if store.record.value.id == id { SetLock(now); }
    }

    /** Unlock hands over to a keepalive loop, which ends; without one it waits for ever. */
    method Unlock()
      requires keepalives > 0
      modifies this`keepalives, store
      ensures store.record == if Owns(old(store.record), id) then None else old(store.record)
      ensures keepalives == old(keepalives) - 1
    {
      if store.record.Some? {
        if store.record.value.id == id { store.record := None; }
      }
      keepalives := keepalives - 1;
    }
  }

  // ----- the protocol as a state machine -----

  /** What a locker knows: `holding` after a TryLock that returned true and until its unlock; `renewed`
      is when it last wrote the record. */
  datatype Party = Party(start: int, keepalives: nat, holding: bool, renewed: int)

  datatype State = State(now: nat, lease: nat, record: Option<LockMeta>, parties: map<Id, Party>)

  datatype Step = Tick(elapsed: nat) | TryLock(id: Id) | Renew(id: Id) | Unlock(id: Id)

  predicate Enabled(s: State, step: Step) {
    match step
    case Tick(_) => true
    case TryLock(id) => id in s.parties
    case Renew(id) => id in s.parties && s.parties[id].keepalives > 0
    case Unlock(id) => id in s.parties && s.parties[id].keepalives > 0
  }

  predicate Succeeds(s: State, id: Id) {
    Free(s.record, id, s.now, s.lease)
  }

  function After(s: State, step: Step): State
    requires Enabled(s, step)
  {
    match step
    case Tick(elapsed) => s.(now := s.now + elapsed)
    case TryLock(id) =>
      var p := s.parties[id].(start := s.now);
      if Succeeds(s, id) then
        s.(record := Some(LockMeta(id, s.now, s.now)),
           parties := s.parties[id := p.(keepalives := p.keepalives + 1, holding := true, renewed := s.now)])
      else s.(parties := s.parties[id := p])
    case Renew(id) =>
      var p := s.parties[id];
      if Owns(s.record, id) then
        s.(record := Some(LockMeta(id, p.start, s.now)), parties := s.parties[id := p.(renewed := s.now)])
      else if s.record.None? then s.(parties := s.parties[id := p.(keepalives := p.keepalives - 1)])
      else s
    case Unlock(id) =>
      var p := s.parties[id].(keepalives := s.parties[id].keepalives - 1, holding := false);
      s.(record := if Owns(s.record, id) then None else s.record, parties := s.parties[id := p])
  }

  predicate Initial(s: State) {
    s.record == None && forall id :: id in s.parties ==> !s.parties[id].holding && s.parties[id].keepalives == 0
  }

  /** A run of the protocol, as the steps and the states before and after them. */
  predicate Run(states: seq<State>, steps: seq<Step>) {
    && |states| == |steps| + 1
    && (forall k :: 0 <= k < |steps| ==> Enabled(states[k], steps[k]) && states[k + 1] == After(states[k], steps[k]))
  }

  /** The methods of a locker take exactly the steps of the machine. */
  ghost predicate Mirrors(s: State, l: LeaseLock)
    reads l, l.store
  {
    && l.id in s.parties && l.leaseInterval == s.lease && l.store.record == s.record
    && s.parties[l.id].start == l.start && s.parties[l.id].keepalives == l.keepalives
  }

  method Perform(l: LeaseLock, ghost s: State, now: nat, step: Step) returns (ghost s': State)
    requires l.Valid() && Mirrors(s, l) && s.now == now && !step.Tick? && step.id == l.id && Enabled(s, step)
    modifies l, l.store
    ensures s' == After(s, step) && Mirrors(s', l)
  {
    s' := After(s, step);
    match step
    case Tick(_) =>
    case TryLock(_) => var _ := l.TryLock(now);
    case Renew(_) => l.KeepaliveTick(now);
    case Unlock(_) => l.Unlock();
  }

  // ----- mutual exclusion -----

  /** A holder whose last renewal is at most four leases old. */
  predicate LiveHolder(s: State, id: Id) {
    id in s.parties && s.parties[id].holding && s.now - s.parties[id].renewed <= 4 * s.lease
  }

  ghost predicate Inv(s: State) {
    && (s.record.Some? ==>
        var r := s.record.value;
        r.id in s.parties && s.parties[r.id].holding && s.parties[r.id].renewed == r.lastUpdate <= s.now
        && s.parties[r.id].keepalives > 0)
    && (forall id :: LiveHolder(s, id) ==> Owns(s.record, id))
  }

  lemma InvStep(s: State, step: Step)
    requires Inv(s) && Enabled(s, step)
    ensures Inv(After(s, step))
  {
    var s' := After(s, step);
    forall id | LiveHolder(s', id) ensures Owns(s'.record, id) {
      if step.Tick? || step.id != id { assert LiveHolder(s, id); }
    }
  }

  lemma {:induction false} InvThroughout(states: seq<State>, steps: seq<Step>)
    requires Run(states, steps) && Inv(states[0])
    ensures forall k :: 0 <= k < |states| ==> Inv(states[k])
    decreases |steps|
  {
    var n := |steps|;
    if n > 0 {
      InvThroughout(states[..n], steps[..n - 1]);
      assert states[..n][n - 1] == states[n - 1];
      InvStep(states[n - 1], steps[n - 1]);
      forall k | 0 <= k < |states| ensures Inv(states[k]) {
        if k < n { assert states[..n][k] == states[k]; }
      }
    }
  }

  /** In every reachable state at most one holder has renewed within four leases, and then the stored
      record carries that holder's id. */
  lemma MutualExclusion(states: seq<State>, steps: seq<Step>)
    requires Run(states, steps) && Initial(states[0])
    ensures forall s, a, b :: s in states && LiveHolder(s, a) && LiveHolder(s, b) ==> a == b && Owns(s.record, a)
  {
    InvThroughout(states, steps);
    forall s, a | s in states && LiveHolder(s, a) ensures Owns(s.record, a) {
      var k :| 0 <= k < |states| && states[k] == s;
      assert Inv(states[k]);
    }
  }

  // ----- whole runs -----

  predicate InTime(s: State, id: Id) {
    id in s.parties ==> s.now - s.parties[id].renewed <= 4 * s.lease
  }

  /** Whoever owns the record has a keepalive loop that can serve its unlock. */
  lemma OwnerCanUnlock(s: State, id: Id)
    requires Inv(s) && Owns(s.record, id)
    ensures Enabled(s, Unlock(id))
  {
  }

  /** A holder that always renews in time keeps the record until it unlocks, whatever the others try, and
      can unlock at any time. */
  lemma {:induction false} TimelyHolderIsNeverDisplaced(states: seq<State>, steps: seq<Step>, id: Id)
    requires Run(states, steps) && Inv(states[0]) && LiveHolder(states[0], id)
    requires forall k :: 0 <= k < |steps| ==> steps[k] != Unlock(id)
    requires forall k :: 0 <= k < |states| ==> InTime(states[k], id)
    ensures forall k :: 0 <= k < |states| ==> LiveHolder(states[k], id) && Owns(states[k].record, id)
    ensures forall k :: 0 <= k < |states| ==> Enabled(states[k], Unlock(id))
    ensures forall k, other :: 0 <= k < |steps| && other != id && steps[k] == TryLock(other) ==>
        !Succeeds(states[k], other)
    decreases |steps|
  {
    InvThroughout(states, steps);
    HoldsOn(states, steps, id);
    forall k | 0 <= k < |states| ensures Owns(states[k].record, id) && Enabled(states[k], Unlock(id)) {
      assert InTime(states[k], id) && LiveHolder(states[k], id);
      OwnerCanUnlock(states[k], id);
    }
  }

  lemma {:induction false} HoldsOn(states: seq<State>, steps: seq<Step>, id: Id)
    requires Run(states, steps) && id in states[0].parties && states[0].parties[id].holding
    requires forall k :: 0 <= k < |steps| ==> steps[k] != Unlock(id)
    ensures forall k :: 0 <= k < |states| ==> id in states[k].parties && states[k].parties[id].holding
    decreases |steps|
  {
    var n := |steps|;
    if n > 0 {
      HoldsOn(states[..n], steps[..n - 1], id);
      assert states[..n][n - 1] == states[n - 1];
      assert steps[n - 1] != Unlock(id);
      forall k | 0 <= k < |states| ensures id in states[k].parties && states[k].parties[id].holding {
        if k < n { assert states[..n][k] == states[k]; }
      }
    }
  }

  /** When the locker last renewed its record in the run, or before it. */
  function LastRenewal(states: seq<State>, steps: seq<Step>, id: Id): int
    requires |states| == |steps| + 1 && id in states[0].parties
    decreases |steps|
  {
    var n := |steps|;
    if n == 0 then states[0].parties[id].renewed
    else if steps[n - 1] == Renew(id) then states[n - 1].now
    else LastRenewal(states[..n], steps[..n - 1], id)
  }

  /** A tick of the owner's keepalive loop makes the record as good as new. */
  lemma RenewalStep(s: State, step: Step, id: Id)
    requires Inv(s) && Enabled(s, step) && LiveHolder(s, id) && step != Unlock(id)
    ensures id in After(s, step).parties && After(s, step).parties[id].holding && After(s, step).lease == s.lease
    ensures After(s, step).parties[id].renewed == if step == Renew(id) then s.now else s.parties[id].renewed
  {
  }

  /** A holder whose last tick is never more than four leases ago keeps the record until it unlocks, whatever
      the others try. */
  lemma {:induction false} RenewingHolderKeepsLock(states: seq<State>, steps: seq<Step>, id: Id)
    requires Run(states, steps) && Inv(states[0]) && LiveHolder(states[0], id)
    requires forall k :: 0 <= k < |steps| ==> steps[k] != Unlock(id)
    requires forall k :: 0 <= k <= |steps| ==>
      states[k].now - LastRenewal(states[..k + 1], steps[..k], id) <= 4 * states[0].lease
    ensures var s := states[|steps|];
      && LiveHolder(s, id) && s.parties[id].renewed == LastRenewal(states, steps, id) && s.lease == states[0].lease
      && Owns(s.record, id) && forall other :: other != id ==> !Succeeds(s, other)
    decreases |steps|
  {
    var n := |steps|;
    InvThroughout(states, steps);
    assert states[..n + 1] == states && steps[..n] == steps;
    if n > 0 {
      var was, rest := states[..n], steps[..n - 1];
      assert was[n - 1] == states[n - 1];
      assert forall k :: 0 <= k < n ==> was[..k + 1] == states[..k + 1] && rest[..k] == steps[..k];
      RenewingHolderKeepsLock(was, rest, id);
      RenewalStep(states[n - 1], steps[n - 1], id);
    }
  }

  lemma {:induction false} StaysVacant(states: seq<State>, steps: seq<Step>)
    requires Run(states, steps) && states[0].record == None
    requires forall k :: 0 <= k < |steps| ==> !steps[k].TryLock?
    ensures states[|steps|].record == None
    decreases |steps|
  {
    if steps != [] {
      assert states[1..][|steps| - 1] == states[|steps|];
      StaysVacant(states[1..], steps[1..]);
    }
  }

  /** A missing record is taken by the first attempt, whoever makes it, and it makes a holder that can
      unlock. So it is in the beginning and after every unlock of the owner (`UnlockVacates`). */
  lemma VacantIsTaken(states: seq<State>, steps: seq<Step>, id: Id)
    requires Run(states, steps) && states[0].record == None && steps != [] && steps[|steps| - 1] == TryLock(id)
    requires forall k :: 0 <= k < |steps| - 1 ==> !steps[k].TryLock?
    ensures var s := states[|steps|];
      s.record == Some(LockMeta(id, s.now, s.now)) && LiveHolder(s, id) && Enabled(s, Unlock(id))
  {
    var n := |steps| - 1;
    StaysVacant(states[..n + 1], steps[..n]);
    assert states[n + 1] == After(states[n], steps[n]) && Enabled(states[n], steps[n]);
  }

  lemma UnlockVacates(s: State, id: Id)
    requires Inv(s) && Owns(s.record, id)
    ensures Enabled(s, Unlock(id)) && After(s, Unlock(id)).record == None && !LiveHolder(After(s, Unlock(id)), id)
  {
    OwnerCanUnlock(s, id);
  }

  predicate NeverWins(states: seq<State>, steps: seq<Step>, id: Id)
    requires |states| == |steps| + 1
  {
    forall k :: 0 <= k < |steps| && steps[k] == TryLock(id) ==> !Succeeds(states[k], id)
  }

  /** A locker that is not in the record, displaced or never in, does not get back in until one of its
      attempts succeeds, and its keepalive loops and its unlock never touch the record meanwhile, whatever
      the others do. */
  lemma {:induction false} DisplacedIsHarmless(states: seq<State>, steps: seq<Step>, id: Id)
    requires Run(states, steps) && !Owns(states[0].record, id) && NeverWins(states, steps, id)
    ensures forall k :: 0 <= k < |states| ==> !Owns(states[k].record, id)
    ensures forall k :: 0 <= k < |steps| && (steps[k] == Renew(id) || steps[k] == Unlock(id)) ==>
      states[k + 1].record == states[k].record
    decreases |steps|
  {
    var n := |steps|;
    if n > 0 {
      DisplacedIsHarmless(states[..n], steps[..n - 1], id);
      assert states[..n][n - 1] == states[n - 1];
      forall k | 0 <= k < |states| ensures !Owns(states[k].record, id) {
        if k < n { assert states[..n][k] == states[k]; }
      }
    }
  }

  predicate IsSuccess(s: State, step: Step) {
    step.TryLock? && Succeeds(s, step.id)
  }

  /** As long as its owner neither renews nor unlocks and no attempt has succeeded, the record stays as
      it is; it can be taken by every other locker once it is older than four leases, and never by its
      own, whatever else has happened. */
  lemma {:induction false} AbandonedIsTaken(states: seq<State>, steps: seq<Step>, owner: Id)
    requires Run(states, steps) && Owns(states[0].record, owner)
    requires Renew(owner) !in steps && Unlock(owner) !in steps
    requires forall k :: 0 <= k < |steps| ==> !IsSuccess(states[k], steps[k])
    ensures states[|steps|].record == states[0].record && states[|steps|].lease == states[0].lease
    ensures forall id :: Succeeds(states[|steps|], id) <==>
      id != owner && states[|steps|].now > states[0].record.value.lastUpdate + 4 * states[0].lease
    decreases |steps|
  {
    var n := |steps|;
    if n > 0 {
      assert steps == steps[..n - 1] + [steps[n - 1]];
      AbandonedIsTaken(states[..n], steps[..n - 1], owner);
      assert states[..n][n - 1] == states[n - 1];
      assert steps[n - 1] in steps && !IsSuccess(states[n - 1], steps[n - 1]);
    }
  }

  /** So the first attempt of another locker after that time succeeds, unless one has succeeded before. */
  lemma ExpiredChangesHands(states: seq<State>, steps: seq<Step>, owner: Id, k: nat)
    requires Run(states, steps) && Owns(states[0].record, owner) && k < |steps|
    requires Renew(owner) !in steps[..k] && Unlock(owner) !in steps[..k]
    requires steps[k].TryLock? && steps[k].id != owner
    requires states[k].now > states[0].record.value.lastUpdate + 4 * states[0].lease
    ensures exists j :: 0 <= j <= k && IsSuccess(states[j], steps[j]) && Owns(states[j + 1].record, steps[j].id)
  {
    if forall j :: 0 <= j < k ==> !IsSuccess(states[j], steps[j]) {
      AbandonedIsTaken(states[..k + 1], steps[..k], owner);
      assert states[..k + 1][k] == states[k] && states[..k + 1][0] == states[0];
      assert Succeeds(states[k], steps[k].id);
      assert IsSuccess(states[k], steps[k]) && states[k + 1] == After(states[k], steps[k]);
    } else {
      var j :| 0 <= j < k && IsSuccess(states[j], steps[j]);
      assert states[j + 1] == After(states[j], steps[j]);
      assert Owns(After(states[j], steps[j]).record, steps[j].id);
    }
  }

  // ----- a lock that cannot be unlocked -----

  /** How often the locker's keepalive loops have run into a missing record. */
  function LoopsLost(states: seq<State>, steps: seq<Step>, id: Id): nat
    requires |states| == |steps| + 1
  {
    if steps == [] then 0
    else
      var n := |steps| - 1;
      LoopsLost(states[..n + 1], steps[..n], id) + if steps[n] == Renew(id) && states[n].record.None? then 1 else 0
  }

  /** Between an attempt that succeeds and the unlock, each tick on a missing record costs a loop, and
      nothing else does. So the unlock can be served exactly when fewer ticks have met a missing record
      than there were loops. */
  lemma {:induction false} UnlockServedExactly(states: seq<State>, steps: seq<Step>, id: Id)
    requires Run(states, steps) && id in states[0].parties
    requires Unlock(id) !in steps && NeverWins(states, steps, id)
    ensures id in states[|steps|].parties
    ensures states[|steps|].parties[id].keepalives == states[0].parties[id].keepalives - LoopsLost(states, steps, id)
    ensures Enabled(states[|steps|], Unlock(id)) <==> LoopsLost(states, steps, id) < states[0].parties[id].keepalives
    decreases |steps|
  {
    assert |states| == |steps| + 1;
    hide After, Succeeds, Run, NeverWins;
    if steps != [] {
      var n := |steps| - 1;
      RunWithoutLast(states, steps, id);
      UnlockServedExactly(states[..n + 1], steps[..n], id);
      LoopsAfter(states[n], steps[n], id);
    }
  }

  lemma RunWithoutLast(states: seq<State>, steps: seq<Step>, id: Id)
    requires Run(states, steps) && steps != [] && Unlock(id) !in steps && NeverWins(states, steps, id)
    ensures var n := |steps| - 1;
      && Run(states[..n + 1], steps[..n]) && Unlock(id) !in steps[..n] && NeverWins(states[..n + 1], steps[..n], id)
      && states[..n + 1][0] == states[0] && states[..n + 1][n] == states[n]
      && Enabled(states[n], steps[n]) && states[n + 1] == After(states[n], steps[n])
      && steps[n] != Unlock(id) && (steps[n] == TryLock(id) ==> !Succeeds(states[n], id))
  {
    hide After, Succeeds;
    assert steps == steps[..|steps| - 1] + [steps[|steps| - 1]];
    assert steps[|steps| - 1] in steps;
  }

  lemma LoopsAfter(s: State, step: Step, id: Id)
    requires Enabled(s, step) && id in s.parties && step != Unlock(id) && (step == TryLock(id) ==> !Succeeds(s, id))
    ensures var lost := if step == Renew(id) && s.record.None? then 1 else 0;
            id in After(s, step).parties && After(s, step).parties[id].keepalives == s.parties[id].keepalives - lost
  {
  }

  lemma {:induction false} NoneLost(states: seq<State>, steps: seq<Step>, id: Id)
    requires |states| == |steps| + 1
    ensures LoopsLost(states, steps, id) == 0 <==> forall k :: 0 <= k < |steps| && steps[k] == Renew(id) ==>
        states[k].record.Some?
    decreases |steps|
  {
    if steps != [] {
      var n := |steps| - 1;
      NoneLost(states[..n + 1], steps[..n], id);
      if LoopsLost(states, steps, id) == 0 {
        forall k | 0 <= k < |steps| && steps[k] == Renew(id) ensures states[k].record.Some? {
          if k < n { assert states[..n + 1][k] == states[k] && steps[..n][k] == steps[k]; }
        }
      }
    }
  }

  /** A locker with one loop, as after its first success, can unlock if and only if none of its ticks has
      met a missing record. */
  lemma OneLoopUnlocksExactly(states: seq<State>, steps: seq<Step>, id: Id)
    requires Run(states, steps) && id in states[0].parties && states[0].parties[id].keepalives == 1
    requires Unlock(id) !in steps && NeverWins(states, steps, id)
    ensures Enabled(states[|steps|], Unlock(id)) <==>
      forall k :: 0 <= k < |steps| && steps[k] == Renew(id) ==> states[k].record.Some?
  {
    UnlockServedExactly(states, steps, id);
    NoneLost(states, steps, id);
  }

  /** When no keepalive loop is left, unlocking waits for ever, unless the locker wins the lock again. */
  lemma {:induction false} UnlockWaitsForEver(states: seq<State>, steps: seq<Step>, id: Id)
    requires Run(states, steps) && id in states[0].parties && states[0].parties[id].keepalives == 0
    requires NeverWins(states, steps, id)
    ensures forall k :: 0 <= k < |states| ==> id in states[k].parties && !Enabled(states[k], Unlock(id))
    decreases |steps|
  {
    var n := |steps|;
    if n > 0 {
      UnlockWaitsForEver(states[..n], steps[..n - 1], id);
      assert states[..n][n - 1] == states[n - 1];
      assert !Enabled(states[n - 1], Unlock(id));
      forall k | 0 <= k < |states| ensures id in states[k].parties && !Enabled(states[k], Unlock(id)) {
        if k < n { assert states[..n][k] == states[k]; }
      }
    }
  }

  /** That happens to a displaced holder whose successor unlocks before the holder's next tick. */
  lemma StrandedHolder(s: State, a: Id, b: Id)
    requires Inv(s) && a != b && a in s.parties && b in s.parties
    requires Owns(s.record, a) && s.parties[a].keepalives == 1
    ensures var s1 := After(s, Tick(4 * s.lease + 1));
            var s2 := After(s1, TryLock(b));
            var s3 := After(s2, Unlock(b));
            var s4 := After(s3, Renew(a));
            s4.parties[a].holding && !Enabled(s4, Unlock(a))
  {
  }
}
