/**
 Request coalescing (src/cache/store.rs `begin_fetch`, `LeaderGuard`): the first
 request for a key leads, later ones follow its channel.  Dropping a guard takes
 two steps, with any interleaving of other requests in between: the in-flight
 entry is removed under the lock, then the sender goes and the channel closes.
 */
module SingleFlight {

  type Key = string
  type Chan = nat

  /** A leader's guard; its channel names it. */
  datatype Guard = Holding(key: Key) | EntryRemoved(key: Key)

  datatype Follower = Follower(key: Key, chan: Chan)

  datatype State = State(
    inflight: map<Key, Chan>,
    guards: map<Chan, Guard>,
    open: set<Chan>,
    followers: map<nat, Follower>,
    nextChan: Chan,
    nextFollower: nat)

  datatype Role = Leader(chan: Chan) | Follows(chan: Chan)

  const START := State(map[], map[], {}, map[], 0, 0)

  // -- Steps -------------------------------------------------------------------------

  /** `begin_fetch`: one critical section. */
  function Begin(s: State, key: Key): (State, Role) {
    if key in s.inflight then
      (s.(followers := s.followers[s.nextFollower := Follower(key, s.inflight[key])],
          nextFollower := s.nextFollower + 1),
       Follows(s.inflight[key]))
    else
      (s.(inflight := s.inflight[key := s.nextChan],
          guards := s.guards[s.nextChan := Holding(key)],
          open := s.open + {s.nextChan},
          nextChan := s.nextChan + 1),
       Leader(s.nextChan))
  }

  /** First half of a guard's drop: remove whatever is registered under its key. */
  function DropRemove(s: State, g: Chan): State
    requires g in s.guards && s.guards[g].Holding?
  {
    var key := s.guards[g].key;
    s.(inflight := s.inflight - {key}, guards := s.guards[g := EntryRemoved(key)])
  }

  /** Second half: the sender is dropped, which closes the channel. */
  function DropClose(s: State, g: Chan): State
    requires g in s.guards && s.guards[g].EntryRemoved?
  {
    s.(guards := s.guards - {g}, open := s.open - {g})
  }

  /** A follower whose channel has closed goes on. */
  function Wake(s: State, f: nat): State {
    s.(followers := s.followers - {f})
  }

  datatype Step = BeginStep(key: Key) | RemoveStep(g: Chan) | CloseStep(g: Chan) | WakeStep(f: nat) | GiveUpStep(f: nat)

  ghost predicate Next(s: State, step: Step, s': State) {
    match step
    case BeginStep(key) => s' == Begin(s, key).0
    case RemoveStep(g) => g in s.guards && s.guards[g].Holding? && s' == DropRemove(s, g)
    case CloseStep(g) => g in s.guards && s.guards[g].EntryRemoved? && s' == DropClose(s, g)
    case WakeStep(f) => f in s.followers && s.followers[f].chan !in s.open && s' == Wake(s, f)
    case GiveUpStep(f) => f in s.followers && s' == Wake(s, f)
  }

  ghost predicate IsRun(states: seq<State>, steps: seq<Step>) {
    && |states| == |steps| + 1 && states[0] == START
    && forall i :: 0 <= i < |steps| ==> Next(states[i], steps[i], states[i + 1])
  }

  // -- What every step keeps --------------------------------------------------------------

  ghost predicate Inv(s: State) {
    // registered entries and holding guards are the same thing
    && (forall k :: k in s.inflight ==> s.inflight[k] in s.guards && s.guards[s.inflight[k]] == Holding(k))
    && (forall g :: g in s.guards && s.guards[g].Holding? ==>
          s.guards[g].key in s.inflight && s.inflight[s.guards[g].key] == g)
    // a channel is open exactly while some guard holds its sender
    && s.open == s.guards.Keys
    // channels are never reused, and a follower waits on a channel of its own key
    && (forall g :: g in s.guards ==> g < s.nextChan)
    && (forall f :: f in s.followers ==> f < s.nextFollower && s.followers[f].chan < s.nextChan)
    && (forall f :: f in s.followers && s.followers[f].chan in s.guards ==>
          s.guards[s.followers[f].chan].key == s.followers[f].key)
  }

  lemma BeginKeeps(s: State, key: Key)
    requires Inv(s)
    ensures Inv(Begin(s, key).0)
  {
  }

  lemma RemoveKeeps(s: State, g: Chan)
    requires Inv(s) && g in s.guards && s.guards[g].Holding?
    ensures Inv(DropRemove(s, g))
  {
  }

  lemma CloseKeeps(s: State, g: Chan)
    requires Inv(s) && g in s.guards && s.guards[g].EntryRemoved?
    ensures Inv(DropClose(s, g))
  {
  }

  lemma StepKeeps(s: State, step: Step, s': State)
    requires Inv(s) && Next(s, step, s')
    ensures Inv(s')
  {
    match step {
      case BeginStep(key) => BeginKeeps(s, key);
      case RemoveStep(g) => RemoveKeeps(s, g);
      case CloseStep(g) => CloseKeeps(s, g);
      case WakeStep(f) =>
      case GiveUpStep(f) =>
    }
  }

  /** Every state of every interleaving is sound. */
  lemma {:induction false} RunSound(states: seq<State>, steps: seq<Step>, i: nat)
    requires IsRun(states, steps) && i < |states|
    ensures Inv(states[i])
  {
    hide Inv, Next;
    if i == 0 {
      StartSound();
    } else {
      RunSound(states, steps, i - 1);
      StepKeeps(states[i - 1], steps[i - 1], states[i]);
    }
  }

  lemma StartSound()
    ensures Inv(START)
  {
  }

  // -- What users of the store rely on --------------------------------------------------------

  /** At most one registered leader per key, in every reachable state. */
  lemma OneLeader(states: seq<State>, steps: seq<Step>, i: nat, g: Chan, h: Chan)
    requires IsRun(states, steps) && i < |states|
    requires g in states[i].guards && h in states[i].guards
    requires states[i].guards[g].Holding? && states[i].guards[h] == states[i].guards[g]
    ensures g == h
  {
    RunSound(states, steps, i);
  }

  /** A request leads exactly when no guard holds its key; otherwise it follows that guard. */
  lemma LeadsIffFree(states: seq<State>, steps: seq<Step>, i: nat, key: Key)
    requires IsRun(states, steps) && i < |states|
    ensures Begin(states[i], key).1.Leader? <==>
      forall g :: g in states[i].guards ==> states[i].guards[g] != Holding(key)
    ensures Begin(states[i], key).1.Follows? ==>
      Begin(states[i], key).1.chan in states[i].guards && states[i].guards[Begin(states[i], key).1.chan] == Holding(key)
  {
    RunSound(states, steps, i);
  }

  /** A dropping guard removes its own entry and no other: never a successor's. */
  lemma RemovesOwnEntry(states: seq<State>, steps: seq<Step>, i: nat, g: Chan)
    requires IsRun(states, steps) && i < |steps| && steps[i] == RemoveStep(g)
    ensures g in states[i].guards
    ensures var key := states[i].guards[g].key;
      && key in states[i].inflight && states[i].inflight[key] == g
      && states[i + 1].inflight == states[i].inflight - {key}
  {
    RunSound(states, steps, i);
    assert Next(states[i], steps[i], states[i + 1]);
  }

  /** The second half of a drop takes nothing from a leader that has come since. */
  lemma CloseLeavesEntries(states: seq<State>, steps: seq<Step>, i: nat, g: Chan)
    requires IsRun(states, steps) && i < |steps| && steps[i] == CloseStep(g)
    ensures states[i + 1].inflight == states[i].inflight
    ensures forall k :: k in states[i].inflight ==> states[i].inflight[k] != g && states[i].inflight[k] in states[i + 1].open
  {
    RunSound(states, steps, i);
    assert Next(states[i], steps[i], states[i + 1]);
  }

  /** No follower waits on an open channel without a guard still holding its sender. */
  lemma FollowersHaveLeader(states: seq<State>, steps: seq<Step>, i: nat, f: nat)
    requires IsRun(states, steps) && i < |states| && f in states[i].followers
    ensures var c := states[i].followers[f].chan;
      c in states[i].open <==> c in states[i].guards
    ensures var c := states[i].followers[f].chan;
      c in states[i].open ==> states[i].guards[c].key == states[i].followers[f].key
  {
    RunSound(states, steps, i);
  }

  /** The rest of a guard's drop, from wherever it stands. */
  function DropFully(s: State, g: Chan): State
    requires g in s.guards
  {
    if s.guards[g].Holding? then DropClose(DropRemove(s, g), g) else DropClose(s, g)
  }

  /** Dropping the guard wakes every one of its followers, and leaves the others waiting. */
  lemma DropWakesFollowers(states: seq<State>, steps: seq<Step>, i: nat, f: nat)
    requires IsRun(states, steps) && i < |states|
    requires f in states[i].followers && states[i].followers[f].chan in states[i].open
    ensures var c := states[i].followers[f].chan;
      && c in states[i].guards
      && DropFully(states[i], c).open == states[i].open - {c}
      && Next(DropFully(states[i], c), WakeStep(f), Wake(DropFully(states[i], c), f))
  {
    RunSound(states, steps, i);
  }

  /** Once closed, a channel stays closed: a woken follower is never put back to sleep. */
  lemma {:induction false} ClosedForGood(states: seq<State>, steps: seq<Step>, i: nat, j: nat, c: Chan)
    requires IsRun(states, steps) && i <= j < |states|
    requires c < states[i].nextChan && c !in states[i].open
    ensures c !in states[j].open && c < states[j].nextChan
    decreases j
  {
    if i < j {
      ClosedForGood(states, steps, i, j - 1, c);
      assert Next(states[j - 1], steps[j - 1], states[j]);
    }
  }

  /** A request that follows is registered, under a new number, with the channel of the leader of its key. */
  lemma FollowerRegistered(states: seq<State>, steps: seq<Step>, i: nat, key: Key)
    requires IsRun(states, steps) && i < |steps| && steps[i] == BeginStep(key) && key in states[i].inflight
    ensures states[i].nextFollower !in states[i].followers
    ensures states[i + 1].followers == states[i].followers[states[i].nextFollower := Follower(key, states[i].inflight[key])]
    ensures states[i + 1].guards == states[i].guards && states[i + 1].inflight == states[i].inflight
  {
    RunSound(states, steps, i);
  }

  /** A request that leads gets an open channel of its own, which later requests for the key will find. */
  lemma LeaderRegistered(states: seq<State>, steps: seq<Step>, i: nat, key: Key)
    requires IsRun(states, steps) && i < |steps| && steps[i] == BeginStep(key) && key !in states[i].inflight
    ensures key in states[i + 1].inflight
    ensures var g := states[i + 1].inflight[key];
      && g !in states[i].guards && g !in states[i].open
      && states[i + 1].guards == states[i].guards[g := Holding(key)] && g in states[i + 1].open
    ensures states[i + 1].followers == states[i].followers
  {
    RunSound(states, steps, i);
  }

  /** Waiting ends only by the channel closing or by giving up, and ends for that follower alone. */
  lemma WaitEnds(states: seq<State>, steps: seq<Step>, i: nat, f: nat)
    requires IsRun(states, steps) && i < |steps|
    requires f in states[i].followers && f !in states[i + 1].followers
    ensures states[i + 1].followers == states[i].followers - {f}
    ensures steps[i] == GiveUpStep(f) || (steps[i] == WakeStep(f) && states[i].followers[f].chan !in states[i].open)
  {
    var s, s' := states[i], states[i + 1];
    assert Next(s, steps[i], s');
  }
}
