/** The process-wide registry of warm cache stores, used by any number of threads. Stores are opened outside
    the registry lock, so several threads may open one for the same key; only one of them is ever given out. */
module CacheRegistry {
  import opened Common

  /** Path, days of retention, megabytes. */
  datatype Key = Key(path: string, ttlDays: int, maxMb: int)

  /** Stores are known by the order in which they were opened. */
  type Store = nat

  // ---- The three lock regions ----

  function Winner(stores: map<Key, Store>, key: Key, fresh_: Store): Store {
    if key in stores then stores[key] else fresh_
  }

  // ---- Threads ----

  /** Where a thread is inside `store_for` or `close`. */
  datatype Local =
    | Idle
    | Looking(key: Key)
    | Opening(key: Key)
    | Inserting(key: Key, mine: Store)
    | Removing(key: Key)
    | Shutting(store: Store)

  /** What happened at a lock point. */
  datatype Event = Returned(key: Key, store: Store) | Dropped(key: Key, old_: Option<Store>)

  datatype State = State(
    stores: map<Key, Store>,
    threads: seq<Local>,
    openCount: nat,     // stores opened so far
    trace: seq<Event>,  // lock points, in order
    lost: set<Store>,   // stores whose thread lost the race
    shut: set<Store>)   // stores that were closed

  datatype Action =
    | Get(key: Key)   // call `store_for`
    | Close(key: Key) // call `close`
    | Advance         // the next step of a call
    | Fail            // opening a store fails

  predicate Enabled(s: State, t: nat, a: Action) {
    t < |s.threads| &&
    match a
    case Get(_) => s.threads[t].Idle?
    case Close(_) => s.threads[t].Idle?
    case Advance => !s.threads[t].Idle?
    case Fail => s.threads[t].Opening?
  }

  function Goto(s: State, t: nat, l: Local): State
    requires t < |s.threads|
  {
    s.(threads := s.threads[t := l])
  }

  /** One step of thread `t`. */
  function Step(s: State, t: nat, a: Action): State
    requires Enabled(s, t, a)
  {
    match a
    case Get(key) => Goto(s, t, Looking(key))
    case Close(key) => Goto(s, t, Removing(key))
    case Fail => Goto(s, t, Idle)
    case Advance =>
      match s.threads[t]
      case Idle => s
      case Looking(key) =>
        if key in s.stores then Goto(s, t, Idle).(trace := s.trace + [Returned(key, s.stores[key])])
        else Goto(s, t, Opening(key))
      case Opening(key) => Goto(s, t, Inserting(key, s.openCount)).(openCount := s.openCount + 1)
      case Inserting(key, mine) =>
        var winner := Winner(s.stores, key, mine);
        Goto(s, t, Idle).(stores := s.stores[key := winner],
                          trace := s.trace + [Returned(key, winner)],
                          lost := if winner == mine then s.lost else s.lost + {mine})
      case Removing(key) =>
        var removed := if key in s.stores then Some(s.stores[key]) else None;
        Goto(s, t, if removed.Some? then Shutting(removed.value) else Idle).(
          stores := s.stores - {key},
          trace := s.trace + [Dropped(key, removed)])
      case Shutting(store) => Goto(s, t, Idle).(shut := s.shut + {store})
  }

  // ---- The registry itself ----

  class Registry {
    var stores: map<Key, Store>

    constructor ()
      ensures stores == map[]
    {
      stores := map[];
    }

    method Lookup(key: Key) returns (found: Option<Store>)
      ensures found == if key in stores then Some(stores[key]) else None
    {
      found := if key in stores then Some(stores[key]) else None;
    }

    method InsertOrKeep(key: Key, fresh_: Store) returns (store: Store)
      modifies this
      ensures store == Winner(old(stores), key, fresh_)
      ensures stores == old(stores)[key := store]
    {
      if key !in stores {
        stores := stores[key := fresh_];
      }
      store := stores[key];
      assert stores == stores[key := store];
    }

    method Remove(key: Key) returns (removed: Option<Store>)
      modifies this
      ensures removed == if key in old(stores) then Some(old(stores)[key]) else None
      ensures stores == old(stores) - {key}
    {
      removed := if key in stores then Some(stores[key]) else None;
      stores := stores - {key};
    }

    /** The lock region at which a call stands, run on this registry, is a step of the machine: `next` is where the
        call goes, `events` what happened. */
    method LockRegion(ghost s: State, ghost t: nat, local: Local) returns (next: Local, events: seq<Event>)
      requires t < |s.threads| && s.threads[t] == local && s.stores == stores
      requires local.Looking? || local.Inserting? || local.Removing?
      modifies this
      ensures var after := Step(s, t, Advance);
              after.stores == stores && after.threads == s.threads[t := next] && after.trace == s.trace + events
    {
      match local
      case Looking(key) =>
        var found := Lookup(key);
        next, events := Opening(key), [];
        if found.Some? { next, events := Idle, [Returned(key, found.value)]; }
      case Inserting(key, mine) =>
        var store := InsertOrKeep(key, mine);
        next, events := Idle, [Returned(key, store)];
      case Removing(key) =>
        var removed := Remove(key);
        next, events := Idle, [Dropped(key, removed)];
        if removed.Some? { next := Shutting(removed.value); }
    }
  }

  /** A scheduling: which thread moves, and how. */
  type Schedule = seq<(nat, Action)>

  function Start(n: nat): State {
    State(map[], seq(n, (i: nat) => Idle), 0, [], {}, {})
  }

  /** The state after a scheduling; moves that are not possible are skipped. */
  function Run(n: nat, moves: Schedule): State {
    if moves == [] then Start(n)
    else
      var s, last := Run(n, moves[..|moves| - 1]), moves[|moves| - 1];
      if Enabled(s, last.0, last.1) then Step(s, last.0, last.1) else s
  }

  // ---- What the trace says ----

  /** The registry after the given lock points. */
  function Replay(trace: seq<Event>): map<Key, Store> {
    if trace == [] then map[]
    else
      match trace[|trace| - 1]
      case Returned(key, store) => Replay(trace[..|trace| - 1])[key := store]
      case Dropped(key, _) => Replay(trace[..|trace| - 1]) - {key}
  }

  function Appears(trace: seq<Event>): set<Store> {
    set e | e in trace && e.Returned? :: e.store
  }

  function Removed(trace: seq<Event>): set<Store> {
    set e | e in trace && e.Dropped? && e.old_.Some? :: e.old_.value
  }

  /** Every returned store is the one registered for its key at that moment. */
  ghost predicate TraceOk(trace: seq<Event>) {
    && (forall i :: 0 <= i < |trace| && trace[i].Returned? ==> ReturnOk(trace, i))
    && forall i :: 0 <= i < |trace| && trace[i].Dropped? ==> DropOk(trace, i)
  }

  ghost predicate ReturnOk(trace: seq<Event>, i: nat)
    requires i < |trace| && trace[i].Returned?
  {
    var before := Replay(trace[..i]);
    if trace[i].key in before then trace[i].store == before[trace[i].key]
    else trace[i].store !in Appears(trace[..i])
  }

  ghost predicate DropOk(trace: seq<Event>, i: nat)
    requires i < |trace| && trace[i].Dropped?
  {
    var before := Replay(trace[..i]);
    trace[i].old_ == if trace[i].key in before then Some(before[trace[i].key]) else None
  }

  function Private(l: Local): Option<Store> {
    if l.Inserting? then Some(l.mine) else None
  }

  ghost predicate Inv(s: State) {
    && s.stores == Replay(s.trace) && TraceOk(s.trace)
    && (forall key :: key in s.stores ==> s.stores[key] in Appears(s.trace))
    && StoresOk(Appears(s.trace), s.lost, s.openCount)
    && s.shut <= Removed(s.trace)
    && ThreadsOk(s.threads, Appears(s.trace), Removed(s.trace), s.lost, s.openCount)
  }

  /** Stores given out and stores lost are opened ones, and different. */
  ghost predicate StoresOk(given: set<Store>, lost: set<Store>, openCount: nat) {
    (forall x :: x in given || x in lost ==> x < openCount) && given !! lost
  }

  /** A store that a thread holds on its own is known to nobody else. */
  ghost predicate ThreadsOk(threads: seq<Local>, given: set<Store>, removed: set<Store>, lost: set<Store>, openCount: nat) {
    && (forall t :: 0 <= t < |threads| ==> LocalOk(threads[t], given, removed, lost, openCount))
    && (forall t, u :: 0 <= t < u < |threads| && Private(threads[t]).Some? ==> Private(threads[t]) != Private(threads[u]))
  }

  ghost predicate LocalOk(l: Local, given: set<Store>, removed: set<Store>, lost: set<Store>, openCount: nat) {
    && (l.Inserting? ==> l.mine < openCount && l.mine !in given && l.mine !in lost)
    && (l.Shutting? ==> l.store in removed)
  }

  lemma {:induction false} Appended(trace: seq<Event>, e: Event)
    requires TraceOk(trace)
    requires e.Returned? ==> if e.key in Replay(trace) then e.store == Replay(trace)[e.key] else e.store !in Appears(trace)
    requires e.Dropped? ==> e.old_ == if e.key in Replay(trace) then Some(Replay(trace)[e.key]) else None
    ensures TraceOk(trace + [e])
    ensures Replay(trace + [e]) == if e.Returned? then Replay(trace)[e.key := e.store] else Replay(trace) - {e.key}
    ensures Appears(trace + [e]) == Appears(trace) + if e.Returned? then {e.store} else {}
    ensures Removed(trace + [e]) == Removed(trace) + if e.Dropped? && e.old_.Some? then {e.old_.value} else {}
  {
    var after := trace + [e];
    assert after[..|trace|] == trace;
    forall i | 0 <= i < |after|
      ensures (after[i].Returned? ==> ReturnOk(after, i)) && (after[i].Dropped? ==> DropOk(after, i))
    {
      if i < |trace| {
        assert after[..i] == trace[..i];
        assert trace[i].Returned? ==> ReturnOk(trace, i);
        assert trace[i].Dropped? ==> DropOk(trace, i);
      }
    }
    assert forall x :: x in after <==> x in trace || x == e;
  }

  lemma {:induction false} StepKeepsInv(s: State, t: nat, a: Action)
    requires Inv(s) && Enabled(s, t, a)
    ensures Inv(Step(s, t, a))
  {
    match a
    case Get(key) => LocalStep(s, t, Looking(key));
    case Close(key) => LocalStep(s, t, Removing(key));
    case Fail => LocalStep(s, t, Idle);
    case Advance =>
      match s.threads[t]
      case Looking(key) => LookKeepsInv(s, t, key);
      case Opening(key) => OpenKeepsInv(s, t, key);
      case Inserting(key, mine) => InsertKeepsInv(s, t, key, mine);
      case Removing(key) => RemoveKeepsInv(s, t, key);
      case Shutting(store) => ShutKeepsInv(s, t, store);
  }

  lemma {:induction false} LocalStep(s: State, t: nat, l: Local)
    requires Inv(s) && t < |s.threads| && !l.Inserting? && !l.Shutting?
    ensures Inv(Goto(s, t, l))
  {
    hide Replay, Appears, Removed, TraceOk;
    Moved(s.threads, t, l, Appears(s.trace), Removed(s.trace), s.lost, s.openCount);
    hide ThreadsOk;
  }

  lemma {:induction false} Moved(threads: seq<Local>, t: nat, l: Local, given: set<Store>, removed: set<Store>,
                                 lost: set<Store>, openCount: nat)
    requires ThreadsOk(threads, given, removed, lost, openCount) && t < |threads| && !l.Inserting? && (l.Shutting? ==> l.store in removed)
    ensures ThreadsOk(threads[t := l], given, removed, lost, openCount)
  {}

  lemma {:induction false} LookKeepsInv(s: State, t: nat, key: Key)
    requires Inv(s) && t < |s.threads| && s.threads[t] == Looking(key)
    ensures Inv(Step(s, t, Advance))
  {
    if key in s.stores {
      HitKeepsInv(s, t, key);
    } else {
      hide Inv;
      LocalStep(s, t, Opening(key));
    }
  }

  lemma {:induction false} HitKeepsInv(s: State, t: nat, key: Key)
    requires Inv(s) && t < |s.threads| && s.threads[t] == Looking(key) && key in s.stores
    ensures Inv(Step(s, t, Advance))
  {
    var after := State(s.stores, s.threads[t := Idle], s.openCount, s.trace + [Returned(key, s.stores[key])], s.lost, s.shut);
    assert Step(s, t, Advance) == after;
    hide Step, Replay, Appears, Removed, TraceOk, ThreadsOk, StoresOk;
    var given, removed, store := Appears(s.trace), Removed(s.trace), s.stores[key];
    Appended(s.trace, Returned(key, store));
    NothingNew(s.stores, given, removed, key);
    Moved(s.threads, t, Idle, given, removed, s.lost, s.openCount);
  }

  lemma {:induction false} NothingNew(stores: map<Key, Store>, given: set<Store>, removed: set<Store>, key: Key)
    requires key in stores && stores[key] in given
    ensures stores[key := stores[key]] == stores && given + {stores[key]} == given && removed + {} == removed
  {}

  lemma {:induction false} OpenKeepsInv(s: State, t: nat, key: Key)
    requires Inv(s) && t < |s.threads| && s.threads[t] == Opening(key)
    ensures Inv(Step(s, t, Advance))
  {
    hide Replay, Appears, Removed, TraceOk;
  }

  lemma {:induction false} RemoveKeepsInv(s: State, t: nat, key: Key)
    requires Inv(s) && t < |s.threads| && s.threads[t] == Removing(key)
    ensures Inv(Step(s, t, Advance))
  {
    hide Replay, Appears, Removed, TraceOk, ThreadsOk, StoresOk;
    var gone := if key in s.stores then Some(s.stores[key]) else None;
    var given, removed := Appears(s.trace), Removed(s.trace);
    Appended(s.trace, Dropped(key, gone));
    var more := removed + if gone.Some? then {gone.value} else {};
    assert given + {} == given;
    MoreRemoved(s.threads, given, removed, more, s.lost, s.openCount);
    Moved(s.threads, t, if gone.Some? then Shutting(gone.value) else Idle, given, more, s.lost, s.openCount);
  }

  lemma {:induction false} MoreRemoved(threads: seq<Local>, given: set<Store>, removed: set<Store>, more: set<Store>,
                                       lost: set<Store>, openCount: nat)
    requires ThreadsOk(threads, given, removed, lost, openCount) && removed <= more
    ensures ThreadsOk(threads, given, more, lost, openCount)
  {}

  lemma {:induction false} ShutKeepsInv(s: State, t: nat, store: Store)
    requires Inv(s) && t < |s.threads| && s.threads[t] == Shutting(store)
    ensures Inv(Step(s, t, Advance))
  {
    hide Replay, Appears, Removed, TraceOk;
    assert LocalOk(s.threads[t], Appears(s.trace), Removed(s.trace), s.lost, s.openCount);
    Moved(s.threads, t, Idle, Appears(s.trace), Removed(s.trace), s.lost, s.openCount);
    hide ThreadsOk, StoresOk;
  }

  lemma {:induction false} InsertKeepsInv(s: State, t: nat, key: Key, mine: Store)
    requires Inv(s) && t < |s.threads| && s.threads[t] == Inserting(key, mine)
    ensures Inv(Step(s, t, Advance))
  {
    hide Inv;
    if key in s.stores {
      LoseKeepsInv(s, t, key, mine);
    } else {
      WinKeepsInv(s, t, key, mine);
    }
  }

  lemma {:induction false} WinKeepsInv(s: State, t: nat, key: Key, mine: Store)
    requires Inv(s) && t < |s.threads| && s.threads[t] == Inserting(key, mine) && key !in s.stores
    ensures Inv(Step(s, t, Advance))
  {
    var after := State(s.stores[key := mine], s.threads[t := Idle], s.openCount, s.trace + [Returned(key, mine)], s.lost, s.shut);
    assert Step(s, t, Advance) == after;
    var given, removed := Appears(s.trace), Removed(s.trace);
    assert LocalOk(s.threads[t], given, removed, s.lost, s.openCount);
    hide Step, Replay, Appears, Removed, TraceOk, ThreadsOk, StoresOk, LocalOk;
    Appended(s.trace, Returned(key, mine));
    GiveOrLose(s.threads, t, key, mine, given, removed, s.lost, s.openCount);
    assert removed + {} == removed;
  }

  lemma {:induction false} LoseKeepsInv(s: State, t: nat, key: Key, mine: Store)
    requires Inv(s) && t < |s.threads| && s.threads[t] == Inserting(key, mine) && key in s.stores
    ensures Inv(Step(s, t, Advance))
  {
    var winner := s.stores[key];
    var given, removed := Appears(s.trace), Removed(s.trace);
    assert LocalOk(s.threads[t], given, removed, s.lost, s.openCount);
    assert winner in given && winner != mine;
    var after := State(s.stores, s.threads[t := Idle], s.openCount, s.trace + [Returned(key, winner)], s.lost + {mine}, s.shut);
    NothingNew(s.stores, given, removed, key);
    assert Step(s, t, Advance) == after;
    hide Step, Replay, Appears, Removed, TraceOk, ThreadsOk, StoresOk, LocalOk;
    Appended(s.trace, Returned(key, winner));
    GiveOrLose(s.threads, t, key, mine, given, removed, s.lost, s.openCount);
  }

  /** A thread's own store becomes public or lost. */
  lemma {:induction false} GiveOrLose(threads: seq<Local>, t: nat, key: Key, mine: Store, given: set<Store>,
                                      removed: set<Store>, lost: set<Store>, openCount: nat)
    requires ThreadsOk(threads, given, removed, lost, openCount) && StoresOk(given, lost, openCount)
    requires t < |threads| && threads[t] == Inserting(key, mine)
    ensures ThreadsOk(threads[t := Idle], given + {mine}, removed, lost, openCount) && StoresOk(given + {mine}, lost, openCount)
    ensures ThreadsOk(threads[t := Idle], given, removed, lost + {mine}, openCount) && StoresOk(given, lost + {mine}, openCount)
  {
    assert LocalOk(threads[t], given, removed, lost, openCount) && Private(threads[t]) == Some(mine);
    forall u | 0 <= u < |threads| && u != t
      ensures Private(threads[u]) != Some(mine) && LocalOk(threads[u], given, removed, lost, openCount)
    {
      if u < t { assert Private(threads[u]).Some? ==> Private(threads[u]) != Private(threads[t]); }
    }
  }

  /** The invariant holds after every scheduling of any number of threads. */
  lemma {:induction false} AlwaysInv(n: nat, moves: Schedule)
    ensures Inv(Run(n, moves))
  {
    if moves == [] {
      var s := Start(n);
      assert forall t :: 0 <= t < n ==> s.threads[t] == Idle;
    } else {
      AlwaysInv(n, moves[..|moves| - 1]);
      var s, last := Run(n, moves[..|moves| - 1]), moves[|moves| - 1];
      hide Inv;
      if Enabled(s, last.0, last.1) { StepKeepsInv(s, last.0, last.1); }
    }
  }

  // ---- Consequences ----

  /** One lock point: a call returns what is registered for its key, registering a store that nobody was ever given
      only when there was none; closing takes out what was registered. */
  ghost predicate LockPoint(before: State, after: State, e: Event) {
    && after.trace == before.trace + [e]
    && match e
       case Returned(key, store) =>
         && key in after.stores && after.stores[key] == store
         && (if key in before.stores then after.stores == before.stores
             else store !in Appears(before.trace) && after.stores == before.stores[key := store])
       case Dropped(key, gone) =>
         && key !in after.stores && after.stores == before.stores - {key}
         && (if key in before.stores then gone == Some(before.stores[key]) else gone == None)
  }

  /** In every run, the registry changes at lock points only, and each of them returns what is registered. */
  lemma {:induction false} ReturnedIsRegistered(n: nat, moves: Schedule, k: nat)
    requires k < |moves|
    ensures var before, after := Run(n, moves[..k]), Run(n, moves[..k + 1]);
            if after.trace == before.trace then after.stores == before.stores
            else exists e :: LockPoint(before, after, e)
  {
    var before, after := Run(n, moves[..k]), Run(n, moves[..k + 1]);
    AlwaysInv(n, moves[..k]);
    assert moves[..k + 1][..k] == moves[..k];
    if Enabled(before, moves[k].0, moves[k].1) {
      LockPointStep(before, moves[k].0, moves[k].1);
    }
  }

  lemma {:induction false} LockPointStep(s: State, t: nat, a: Action)
    requires Inv(s) && Enabled(s, t, a)
    ensures var after := Step(s, t, a);
            if after.trace == s.trace then after.stores == s.stores else exists e :: LockPoint(s, after, e)
  {
    var after := Step(s, t, a);
    if after.trace != s.trace {
      var e := after.trace[|s.trace|];
      var local := s.threads[t];
      if local.Inserting? {
        assert LocalOk(local, Appears(s.trace), Removed(s.trace), s.lost, s.openCount);
      }
      hide Replay, Appears, Removed, TraceOk, ThreadsOk, StoresOk;
      assert LockPoint(s, after, e);
    }
  }

  /** Every entry of the trace has its lock point in the run. */
  lemma {:induction false} EventsAreLockPoints(n: nat, moves: Schedule, i: nat)
    requires i < |Run(n, moves).trace|
    ensures exists k: nat :: k < |moves| && |Run(n, moves[..k]).trace| == i &&
              LockPoint(Run(n, moves[..k]), Run(n, moves[..k + 1]), Run(n, moves).trace[i])
  {
    var last := |moves| - 1;
    var before := Run(n, moves[..last]);
    ReturnedIsRegistered(n, moves, last);
    assert moves[..last + 1] == moves;
    hide Run, LockPoint;
    if i < |before.trace| {
      EventsAreLockPoints(n, moves[..last], i);
      var k: nat :| k < last && |Run(n, moves[..last][..k]).trace| == i &&
        LockPoint(Run(n, moves[..last][..k]), Run(n, moves[..last][..k + 1]), before.trace[i]);
      assert moves[..last][..k] == moves[..k] && moves[..last][..k + 1] == moves[..k + 1];
      TraceGrows(before, Run(n, moves));
    } else {
      TraceGrows(before, Run(n, moves));
    }
  }

  lemma {:induction false} TraceGrows(before: State, after: State)
    requires after.trace == before.trace || exists e :: LockPoint(before, after, e)
    ensures before.trace <= after.trace && |after.trace| <= |before.trace| + 1
    ensures after.trace != before.trace ==> LockPoint(before, after, after.trace[|before.trace|])
  {
    hide Appears;
  }

  ghost predicate NoDropBetween(trace: seq<Event>, key: Key, i: nat, j: nat)
    requires i <= j <= |trace|
  {
    forall k :: i <= k < j ==> !(trace[k].Dropped? && trace[k].key == key)
  }

  lemma {:induction false} StaysRegistered(trace: seq<Event>, key: Key, i: nat, j: nat)
    requires TraceOk(trace) && i < j <= |trace| && trace[i].Returned? && trace[i].key == key
    requires NoDropBetween(trace, key, i, j)
    ensures key in Replay(trace[..j]) && Replay(trace[..j])[key] == trace[i].store
  {
    if i + 1 < j {
      hide TraceOk, Replay;
      assert NoDropBetween(trace, key, i, j - 1) && !(trace[j - 1].Dropped? && trace[j - 1].key == key);
      hide NoDropBetween;
      StaysRegistered(trace, key, i, j - 1);
      StaysOnce(trace, key, j);
    } else {
      ReplayLast(trace, j);
      hide *;
    }
  }

  lemma {:induction false} StaysOnce(trace: seq<Event>, key: Key, j: nat)
    requires TraceOk(trace) && 0 < j <= |trace| && !(trace[j - 1].Dropped? && trace[j - 1].key == key)
    requires key in Replay(trace[..j - 1])
    ensures key in Replay(trace[..j]) && Replay(trace[..j])[key] == Replay(trace[..j - 1])[key]
  {
    ReplayLast(trace, j);
    assert trace[j - 1].Returned? ==> ReturnOk(trace, j - 1);
    hide TraceOk, Replay, Appears;
  }

  lemma {:induction false} ReplayLast(trace: seq<Event>, j: nat)
    requires 0 < j <= |trace|
    ensures var before, e := Replay(trace[..j - 1]), trace[j - 1];
            Replay(trace[..j]) == if e.Returned? then before[e.key := e.store] else before - {e.key}
  {
    assert trace[..j][..j - 1] == trace[..j - 1];
  }

  /** Two calls for a key with no close of it between their lock points get the same store. */
  lemma {:induction false} SameStoreUntilClosed(n: nat, moves: Schedule, i: nat, j: nat)
    requires var trace := Run(n, moves).trace;
             && i < j < |trace| && trace[i].Returned? && trace[j].Returned? && trace[i].key == trace[j].key
             && NoDropBetween(trace, trace[i].key, i, j)
    ensures Run(n, moves).trace[i].store == Run(n, moves).trace[j].store
  {
    AlwaysInv(n, moves);
    var trace := Run(n, moves).trace;
    StaysRegistered(trace, trace[i].key, i, j);
    assert ReturnOk(trace, j);
  }

  lemma {:induction false} ReplayAppears(trace: seq<Event>)
    ensures forall key :: key in Replay(trace) ==> Replay(trace)[key] in Appears(trace)
  {
    if trace != [] {
      var n := |trace| - 1;
      ReplayAppears(trace[..n]);
      assert trace == trace[..n] + [trace[n]];
    }
  }

  /** A store is given out for one key only. */
  lemma {:induction false} OneKeyPerStore(trace: seq<Event>, i: nat, j: nat)
    requires TraceOk(trace) && i < j < |trace| && trace[i].Returned? && trace[j].Returned? && trace[i].store == trace[j].store
    ensures trace[i].key == trace[j].key
    decreases j
  {
    assert ReturnOk(trace, j);
    assert trace[..j][i] == trace[i] && trace[i] in trace[..j];
    var before := Replay(trace[..j]);
    assert trace[j].key in before && before[trace[j].key] == trace[i].store;
    var k := LastReturn(trace[..j], trace[j].key);
    assert trace[k] == trace[..j][k];
    if k < i {
      OneKeyPerStore(trace, k, i);
    } else if i < k {
      OneKeyPerStore(trace, i, k);
    }
  }

  /** What is registered was returned at some lock point. */
  lemma {:induction false} LastReturn(trace: seq<Event>, key: Key) returns (k: nat)
    requires key in Replay(trace)
    ensures k < |trace| && trace[k] == Returned(key, Replay(trace)[key])
  {
    var n := |trace| - 1;
    if trace[n].Returned? && trace[n].key == key {
      k := n;
    } else {
      k := LastReturn(trace[..n], key);
    }
  }

  /** Callers never share a store across keys. */
  lemma {:induction false} StoresAreKeyed(n: nat, moves: Schedule, i: nat, j: nat)
    requires var trace := Run(n, moves).trace;
             i < j < |trace| && trace[i].Returned? && trace[j].Returned? && trace[i].store == trace[j].store
    ensures Run(n, moves).trace[i].key == Run(n, moves).trace[j].key
  {
    AlwaysInv(n, moves);
    OneKeyPerStore(Run(n, moves).trace, i, j);
  }

  lemma {:induction false} Later(n: nat, moves: Schedule, k: nat)
    requires k <= |moves|
    ensures Run(n, moves[..k]).lost <= Run(n, moves).lost
  {
    if k < |moves| {
      assert moves[..|moves| - 1][..k] == moves[..k];
      Later(n, moves[..|moves| - 1], k);
    } else {
      assert moves[..k] == moves;
    }
  }

  lemma {:induction false} LostIsHidden(n: nat, moves: Schedule, k: nat, store: Store)
    requires k <= |moves| && store in Run(n, moves[..k]).lost
    ensures store !in Appears(Run(n, moves).trace)
  {
    AlwaysInv(n, moves);
    Later(n, moves, k);
  }

  /** A thread that comes to insert its store and finds another one registered has lost the race: its store is never
      given out, neither before nor ever after. */
  lemma {:induction false} LostNeverEscapes(n: nat, moves: Schedule, k: nat, t: nat)
    requires k < |moves| && moves[k] == (t, Advance)
    requires var s := Run(n, moves[..k]); t < |s.threads| && s.threads[t].Inserting? && s.threads[t].key in s.stores
    ensures Run(n, moves[..k]).threads[t].mine !in Appears(Run(n, moves).trace)
  {
    var s := Run(n, moves[..k]);
    AlwaysInv(n, moves[..k]);
    assert moves[..k + 1][..k] == moves[..k];
    assert s.threads[t].mine in Run(n, moves[..k + 1]).lost by {
      LoserIsLost(s, t);
    }
    LostIsHidden(n, moves, k + 1, s.threads[t].mine);
  }

  lemma {:induction false} LoserIsLost(s: State, t: nat)
    requires Inv(s) && t < |s.threads| && s.threads[t].Inserting? && s.threads[t].key in s.stores
    ensures s.threads[t].mine in Step(s, t, Advance).lost
  {
    assert LocalOk(s.threads[t], Appears(s.trace), Removed(s.trace), s.lost, s.openCount);
    assert s.stores[s.threads[t].key] in Appears(s.trace);
    hide Appears, Removed, TraceOk, Replay;
  }

  /** A store that a thread shuts, or has shut, was removed from the registry before. */
  lemma {:induction false} ShutOnlyAfterClose(n: nat, moves: Schedule, t: nat, store: Store)
    requires t < |Run(n, moves).threads|
    requires Run(n, moves).threads[t] == Shutting(store) || store in Run(n, moves).shut
    ensures exists i :: 0 <= i < |Run(n, moves).trace| && Run(n, moves).trace[i].Dropped? && Run(n, moves).trace[i].old_ == Some(store)
  {
    AlwaysInv(n, moves);
    var s := Run(n, moves);
    assert LocalOk(s.threads[t], Appears(s.trace), Removed(s.trace), s.lost, s.openCount);
    var trace := s.trace;
    var e :| e in trace && e.Dropped? && e.old_ == Some(store);
    var i :| 0 <= i < |trace| && trace[i] == e;
  }
}
