/** Who may write in which epoch of a scope. Writers hold leases; a batch of epoch
    transitions commits only when none is held, all of it or nothing, and when its
    durable outcome is unknown its scopes are closed until exactly that batch is
    tried again. */
module Membership {
  import opened Ids
  import opened Sorting

  const MAX_SCOPES: nat := 4096
  const MAX_MEMBERS: nat := 4096
  const MAX_NAME: nat := 4096
  const MAX_IDENTITY: nat := 256
  const LAST_EPOCH: nat := U64 - 1

  datatype Scope = Scope(document: string, stream: string)

  datatype ScopeState = ScopeState(epoch: nat, members: seq<ActorId>, uncertain: bool)

  datatype Change = Change(expected: nat, members: seq<ActorId>)

  datatype Batch = Batch(identity: string, changes: map<Scope, Change>)

  /** A permit to write in one epoch of a scope, held until it is given back. */
  datatype Lease = Lease(scope: Scope, epoch: nat, producer: ActorId)

  datatype State = State(scopes: map<Scope, ScopeState>, pending: Option<Batch>, leases: map<nat, Lease>)

  // ---- Members -----------------------------------------------------------

  predicate Sorted(s: seq<ActorId>) {
    forall i, j :: 0 <= i < j < |s| ==> s[i] <= s[j]
  }

  predicate StrictlySorted(s: seq<ActorId>) {
    forall i, j :: 0 <= i < j < |s| ==> s[i] < s[j]
  }

  predicate Different(s: seq<ActorId>) {
    forall i, j :: 0 <= i < j < |s| ==> s[i] != s[j]
  }

  function ActorKey(a: ActorId): SortKey {
    SortKey(a, 0)
  }

  /** Sort; the result has no neighbours that are equal exactly if nothing repeats. */
  method SortMembers(members: seq<ActorId>) returns (r: seq<ActorId>)
    ensures Sorted(r) && |r| == |members| && (forall a :: a in r <==> a in members)
    ensures StrictlySorted(r) <==> Different(members)
  {
    r := SortBy(members, ActorKey);
    forall i, j | 0 <= i < j < |r|
      ensures r[i] <= r[j]
    {
      assert !KeyBelow(ActorKey(r[j]), ActorKey(r[i]));
    }
    if Different(members) {
      RearrangedNoneTwice(members, r);
    } else if StrictlySorted(r) {
      RearrangedNoneTwice(r, members);
    }
  }

  /** Between 1 and 4096 valid, different actors. */
  predicate MembersValid(members: seq<ActorId>) {
    0 < |members| <= MAX_MEMBERS && (forall a :: a in members ==> ValidActor(a)) && Different(members)
  }

  /** Sort the members; refuse invalid or repeated ones. */
  method ValidateMembers(members: seq<ActorId>) returns (ok: bool, r: seq<ActorId>)
    ensures ok <==> MembersValid(members)
    ensures ok ==> StrictlySorted(r) && forall a :: a in r <==> a in members
  {
    r := members;
    if members == [] || |members| > MAX_MEMBERS { return false, r; }
    r := SortMembers(members);
    for i := 0 to |r|
      invariant forall j :: 0 <= j < i ==> ValidActor(r[j])
      invariant forall j, k :: 0 <= j < k < i ==> r[j] < r[k]
    {
      if !ValidActor(r[i]) {
        assert r[i] in members;
        return false, r;
      }
      if i > 0 && r[i - 1] == r[i] { return false, r; }
    }
    ok := true;
  }

  method BinarySearch(s: seq<ActorId>, a: ActorId) returns (found: bool)
    requires StrictlySorted(s)
    ensures found <==> a in s
  {
    var lo: nat, hi: nat := 0, |s|;
    while lo < hi
      invariant lo <= hi <= |s|
      invariant forall i :: 0 <= i < lo ==> s[i] < a
      invariant forall i :: hi <= i < |s| ==> a < s[i]
    {
      var mid: nat := (lo + hi) / 2;
      if s[mid] == a { return true; }
      if s[mid] < a { lo := mid + 1; } else { hi := mid; }
    }
    found := false;
  }

  // ---- The steps ---------------------------------------------------------

  predicate NameValid(s: string) {
    0 < |s| <= MAX_NAME
  }

  /** What a batch has to look like, whatever the state. */
  predicate BatchValid(b: Batch) {
    && b.changes != map[] && |b.changes| <= MAX_SCOPES
    && 0 < |b.identity| <= MAX_IDENTITY && '\0' !in b.identity
    && ChangesValid(b.changes)
  }

  /** The state lets the batch go ahead: it continues the current epochs, and if
      another batch's outcome is unknown it is that very batch. */
  predicate Continues(s: State, b: Batch) {
    && (s.pending.Some? ==> s.pending.value == b)
    && forall k :: k in b.changes ==>
         k in s.scopes && s.scopes[k].epoch == b.changes[k].expected && (s.scopes[k].uncertain ==> s.pending.Some?)
  }

  /** How the durable commit of a batch ends. */
  datatype Outcome = Durable | Refused | Unknown

  function Granted(s: State, l: Lease): bool {
    && l.scope in s.scopes && !s.scopes[l.scope].uncertain
    && s.scopes[l.scope].epoch == l.epoch && l.producer in s.scopes[l.scope].members
  }

  function Acquire(s: State, id: nat, l: Lease): State {
    if id !in s.leases && Granted(s, l) then s.(leases := s.leases[id := l]) else s
  }

  function Release(s: State, id: nat): State {
    s.(leases := map k | k in s.leases && k != id :: s.leases[k])
  }

  function Advance(scopes: map<Scope, ScopeState>, b: Batch): map<Scope, ScopeState>
    requires forall k :: k in b.changes ==> k in scopes
  {
    map k | k in scopes ::
      if k in b.changes then ScopeState(b.changes[k].expected + 1, b.changes[k].members, false) else scopes[k]
  }

  function CloseScopes(scopes: map<Scope, ScopeState>, b: Batch): map<Scope, ScopeState> {
    map k | k in scopes :: if k in b.changes then scopes[k].(uncertain := true) else scopes[k]
  }

  /** A batch waits until no lease is held. */
  function Commit(s: State, b: Batch, outcome: Outcome): State {
    if s.leases != map[] || !BatchValid(b) || !Continues(s, b) then s
    else
      match outcome
      case Durable => s.(scopes := Advance(s.scopes, b), pending := None)
      case Refused => s
      case Unknown => s.(scopes := CloseScopes(s.scopes, b), pending := Some(b))
  }

  datatype Event =
    | Acquired(id: nat, lease: Lease)
    | Released(id: nat)
    | Committed(batch: Batch, outcome: Outcome)

  function Step(s: State, e: Event): State {
    match e
    case Acquired(id, l) => Acquire(s, id, l)
    case Released(id) => Release(s, id)
    case Committed(b, outcome) => Commit(s, b, outcome)
  }

  // ---- What every run keeps ----------------------------------------------

  /** Leases are good in the current epoch of their scope; the closed scopes are
      those of the batch whose outcome is unknown, which still continues them. */
  ghost predicate Inv(s: State) {
    && (forall id :: id in s.leases ==> Granted(s, s.leases[id]))
    && (forall k :: k in s.scopes ==> (s.scopes[k].uncertain <==> s.pending.Some? && k in s.pending.value.changes))
    && (s.pending.Some? ==> BatchValid(s.pending.value) && Continues(s, s.pending.value))
  }

  /** Enrolled scopes have an epoch below the last and sorted members. */
  ghost predicate Start(s: State) {
    s.pending.None? && s.leases == map[] && forall k :: k in s.scopes ==> !s.scopes[k].uncertain
  }

  lemma {:induction false} StepKeeps(s: State, e: Event)
    requires Inv(s)
    ensures Inv(Step(s, e))
  {
    hide BatchValid;
  }

  function Run(s: State, events: seq<Event>): State {
    if events == [] then s else Step(Run(s, events[..|events| - 1]), events[|events| - 1])
  }

  /** Leases stay good and exactly the pending batch's scopes are closed, in every
      interleaving. */
  lemma {:induction false} RunKeeps(s: State, events: seq<Event>)
    requires Start(s)
    ensures Inv(Run(s, events))
  {
    if events != [] {
      RunKeeps(s, events[..|events| - 1]);
      StepKeeps(Run(s, events[..|events| - 1]), events[|events| - 1]);
    }
  }

  /** Epochs change only by a durable commit, by one, for all scopes of the batch
      together, and only while no lease at all is held. */
  lemma {:induction false} EpochsRiseTogether(s: State, e: Event)
    requires Inv(s)
    ensures Step(s, e).scopes.Keys == s.scopes.Keys
    ensures forall k :: k in s.scopes && Step(s, e).scopes[k].epoch != s.scopes[k].epoch ==>
              && e.Committed? && e.outcome.Durable? && k in e.batch.changes && s.leases == map[]
              && forall j :: j in e.batch.changes ==>
                   j in s.scopes && Step(s, e).scopes[j] == ScopeState(s.scopes[j].epoch + 1, e.batch.changes[j].members, false)
  {
    hide BatchValid;
  }

  /** While a batch's outcome is unknown, only that batch can change any scope. */
  lemma {:induction false} OnlyExactRetry(s: State, e: Event)
    requires Inv(s) && s.pending.Some? && !(e.Committed? && e.batch == s.pending.value)
    ensures Step(s, e).scopes == s.scopes && Step(s, e).pending == s.pending
    ensures forall id :: id in Step(s, e).leases && id !in s.leases ==> Step(s, e).leases[id].scope !in s.pending.value.changes
  {
    hide BatchValid;
  }

  /** Trying it again always goes through once the leases are back. */
  lemma {:induction false} RetryGoesThrough(s: State)
    requires Inv(s) && s.pending.Some? && s.leases == map[]
    ensures var t := Commit(s, s.pending.value, Durable);
            && t.pending.None? && (forall k :: k in t.scopes ==> !t.scopes[k].uncertain)
            && forall k :: k in s.pending.value.changes ==> k in t.scopes && t.scopes[k].epoch == s.scopes[k].epoch + 1
  {
    hide BatchValid;
  }

  predicate Releases(events: seq<Event>, id: nat) {
    exists i :: 0 <= i < |events| && events[i] == Released(id)
  }

  /** A lease that is held through a run keeps its scope in its epoch throughout. */
  lemma {:induction false} LeaseHoldsEpoch(s: State, events: seq<Event>, id: nat)
    requires Inv(s) && id in s.leases && !Releases(events, id)
    ensures var t := Run(s, events);
            && Inv(t) && id in t.leases && t.leases[id] == s.leases[id]
            && s.leases[id].scope in t.scopes && t.scopes[s.leases[id].scope].epoch == s.scopes[s.leases[id].scope].epoch
            && !t.scopes[s.leases[id].scope].uncertain
  {
    if events != [] {
      var init, last := events[..|events| - 1], events[|events| - 1];
      forall i | 0 <= i < |init|
        ensures init[i] != Released(id)
      {
        assert events[i] == init[i];
      }
      LeaseHoldsEpoch(s, init, id);
      var t := Run(s, init);
      StepKeeps(t, last);
      assert events[|events| - 1] != Released(id);
      assert id in Step(t, last).leases && Step(t, last).leases[id] == t.leases[id] by { hide BatchValid, Continues; }
      assert Granted(Step(t, last), s.leases[id]) && Granted(t, s.leases[id]);
    }
  }

  /** Whoever holds a lease, after whatever happened, is a member of its scope in the
      lease's epoch, and the scope is open. */
  lemma {:induction false} LeasesAreMembers(s: State, events: seq<Event>, id: nat)
    requires Start(s) && id in Run(s, events).leases
    ensures var t := Run(s, events);
            var l := t.leases[id];
            && l.scope in t.scopes && l.producer in t.scopes[l.scope].members
            && t.scopes[l.scope].epoch == l.epoch && !t.scopes[l.scope].uncertain
  {
    RunKeeps(s, events);
    hide Run, BatchValid, Continues;
  }

  /** A lease is given exactly to a member of an open scope, in its current epoch. */
  lemma {:induction false} AcquireIsExact(s: State, id: nat, l: Lease)
    requires id !in s.leases
    ensures var t := Acquire(s, id, l);
            && t.scopes == s.scopes && t.pending == s.pending
            && (t.leases == s.leases[id := l] <==>
                  && l.scope in s.scopes && !s.scopes[l.scope].uncertain
                  && s.scopes[l.scope].epoch == l.epoch && l.producer in s.scopes[l.scope].members)
            && (t.leases != s.leases[id := l] ==> t == s)
  {
    assert id in s.leases[id := l];
  }

  /** Giving back the leases that are held, one after the other, leaves none, and
      nothing else changes; a batch that continues the epochs can then be committed. */
  lemma {:induction false} LeasesDrain(s: State) returns (events: seq<Event>)
    ensures forall e :: e in events ==> e.Released? && e.id in s.leases
    ensures Run(s, events) == s.(leases := map[])
    decreases |s.leases|
  {
    if s.leases == map[] {
      events := [];
    } else {
      var id :| id in s.leases;
      var t := Release(s, id);
      assert t.leases.Keys == s.leases.Keys - {id};
      var rest := LeasesDrain(t);
      events := [Released(id)] + rest;
      RunFrom(s, Released(id), rest);
    }
  }

  lemma {:induction false} RunFrom(s: State, e: Event, events: seq<Event>)
    ensures Run(s, [e] + events) == Run(Step(s, e), events)
    decreases |events|
  {
    hide Step;
    if events == [] {
      assert [e] + events == [e] && [e][..0] == [];
    } else {
      var n := |events| - 1;
      RunFrom(s, e, events[..n]);
      assert ([e] + events)[..n + 1] == [e] + events[..n];
    }
  }

  /** One scope can always go on to its next epoch: with names of 1 to 4096 characters, 1
      to 4096 different actors and nothing in the way, the request is valid, and the
      commit changes this scope only. */
  lemma {:induction false} OneScopeGoesOn(s: State, identity: string, k: Scope, members: seq<ActorId>)
    requires 0 < |identity| <= 256 && '\0' !in identity
    requires 0 < |k.document| <= 4096 && 0 < |k.stream| <= 4096
    requires 0 < |members| <= 4096 && StrictlySorted(members) && forall a :: a in members ==> a != 0
    requires s.leases == map[] && s.pending.None? && k in s.scopes && !s.scopes[k].uncertain && s.scopes[k].epoch < U64 - 1
    ensures var e := s.scopes[k].epoch;
            && RequestValid(identity, [Transition(k, e, e + 1, members)])
            && Commit(s, Batch(identity, map[k := Change(e, members)]), Durable)
               == s.(scopes := s.scopes[k := ScopeState(e + 1, members, false)])
  {
    var e := s.scopes[k].epoch;
    var b := Batch(identity, map[k := Change(e, members)]);
    assert b.changes.Keys == {k};
    assert k in b.changes;
    assert BatchValid(b) && Continues(s, b);
    assert Advance(s.scopes, b) == s.scopes[k := ScopeState(e + 1, members, false)];
  }

  /** With no lease held, a batch that continues the epochs does what its outcome says:
      all its scopes go on to the next epoch with the new members, or none changes, or
      all are closed until it is tried again. */
  lemma {:induction false} CommitIsExact(s: State, b: Batch, outcome: Outcome)
    requires s.leases == map[] && BatchValid(b) && Continues(s, b)
    ensures var t := Commit(s, b, outcome);
            && t.scopes.Keys == s.scopes.Keys && t.leases == map[]
            && t.pending == (if outcome.Durable? then None else if outcome.Unknown? then Some(b) else s.pending)
            && forall k :: k in s.scopes ==>
                 t.scopes[k] ==
                   if k !in b.changes || outcome.Refused? then s.scopes[k]
                   else if outcome.Unknown? then s.scopes[k].(uncertain := true)
                   else ScopeState(s.scopes[k].epoch + 1, b.changes[k].members, false)
  {
    hide BatchValid;
  }

  // ---- The coordinator ---------------------------------------------------

  datatype Transition = Transition(scope: Scope, expected: nat, next: nat, members: seq<ActorId>)

  datatype Verdict = Fine | Malformed | WrongEpoch | CommitUncertain | Reentrant | Waiting | Failed

  predicate TransitionValid(t: Transition) {
    && NameValid(t.scope.document) && NameValid(t.scope.stream)
    && t.expected < LAST_EPOCH && t.next == t.expected + 1 && MembersValid(t.members)
  }

  ghost predicate Names(transitions: seq<Transition>, k: Scope) {
    exists i :: 0 <= i < |transitions| && transitions[i].scope == k
  }

  /** The change map of a list of transitions: one entry each. */
  ghost predicate Gathers(transitions: seq<Transition>, changes: map<Scope, Change>) {
    && (forall k :: k in changes <==> Names(transitions, k))
    && (forall i :: 0 <= i < |transitions| ==>
          && transitions[i].scope in changes && changes[transitions[i].scope].expected == transitions[i].expected
          && StrictlySorted(changes[transitions[i].scope].members)
          && forall a :: a in changes[transitions[i].scope].members <==> a in transitions[i].members)
  }

  predicate ScopesDiffer(transitions: seq<Transition>) {
    forall i, j :: 0 <= i < j < |transitions| ==> transitions[i].scope != transitions[j].scope
  }

  predicate ChangesValid(changes: map<Scope, Change>) {
    forall k :: k in changes ==>
      NameValid(k.document) && NameValid(k.stream) && changes[k].expected < LAST_EPOCH && StrictlySorted(changes[k].members)
  }

  predicate AllValid(transitions: seq<Transition>) {
    forall j :: 0 <= j < |transitions| ==> TransitionValid(transitions[j])
  }

  /** What a request has to look like, whatever the state. */
  predicate RequestValid(identity: string, transitions: seq<Transition>) {
    && transitions != [] && |transitions| <= MAX_SCOPES
    && identity != "" && |identity| <= MAX_IDENTITY && '\0' !in identity
    && ScopesDiffer(transitions) && AllValid(transitions)
  }

  lemma {:induction false} SomethingGathered(transitions: seq<Transition>, changes: map<Scope, Change>)
    requires transitions != [] && Gathers(transitions, changes)
    ensures changes != map[]
  {
    assert transitions[0].scope in changes;
  }

  /** The transitions are valid, of different scopes, and gathered. */
  ghost predicate Gathered(transitions: seq<Transition>, changes: map<Scope, Change>) {
    && ScopesDiffer(transitions) && AllValid(transitions)
    && Gathers(transitions, changes) && |changes| == |transitions| && ChangesValid(changes)
  }

  lemma {:induction false} NotAllValid(transitions: seq<Transition>, i: nat)
    requires i < |transitions| && !TransitionValid(transitions[i])
    ensures !AllValid(transitions)
  {
  }

  /** Validate transitions and gather them; a repeated scope is refused. */
  method GatherChanges(transitions: seq<Transition>) returns (ok: bool, changes: map<Scope, Change>)
    ensures ok <==> ScopesDiffer(transitions) && AllValid(transitions)
    ensures ok ==> Gathers(transitions, changes) && |changes| == |transitions| && ChangesValid(changes)
  {
    changes := map[];
    NothingGathered(transitions);
    hide Gathered, Gathers, StrictlySorted, ScopesDiffer, MembersValid, ChangesValid, NameValid, AllValid;
    for i := 0 to |transitions|
      invariant Gathered(transitions[..i], changes)
    {
      var t := transitions[i];
      if !NameValid(t.scope.document) || !NameValid(t.scope.stream) || t.expected >= LAST_EPOCH || t.next != t.expected + 1 {
        NotAllValid(transitions, i);
        return false, changes;
      }
      var valid, members := ValidateMembers(t.members);
      if !valid {
        NotAllValid(transitions, i);
        return false, changes;
      }
      if t.scope in changes {
        Repeats(transitions, i, changes);
        return false, changes;
      }
      GatherStep(transitions[..i], t, changes, Change(t.expected, members));
      assert transitions[..i + 1] == transitions[..i] + [t];
      changes := changes[t.scope := Change(t.expected, members)];
    }
    assert transitions[..|transitions|] == transitions;
    AllGathered(transitions, changes);
    ok := true;
  }

  lemma {:induction false} NothingGathered(transitions: seq<Transition>)
    ensures Gathered(transitions[..0], map[])
  {
  }

  lemma {:induction false} AllGathered(transitions: seq<Transition>, changes: map<Scope, Change>)
    requires Gathered(transitions, changes)
    ensures ScopesDiffer(transitions) && AllValid(transitions)
    ensures Gathers(transitions, changes) && |changes| == |transitions| && ChangesValid(changes)
  {
  }

  lemma {:induction false} Repeats(transitions: seq<Transition>, i: nat, changes: map<Scope, Change>)
    requires i < |transitions| && Gathered(transitions[..i], changes) && transitions[i].scope in changes
    ensures !ScopesDiffer(transitions)
  {
    var j :| 0 <= j < i && transitions[..i][j].scope == transitions[i].scope;
    assert transitions[j].scope == transitions[i].scope;
  }

  lemma {:induction false} GatherStep(init: seq<Transition>, t: Transition, changes: map<Scope, Change>, c: Change)
    requires Gathered(init, changes) && t.scope !in changes && TransitionValid(t)
    requires c.expected == t.expected && StrictlySorted(c.members) && forall a :: a in c.members <==> a in t.members
    ensures Gathered(init + [t], changes[t.scope := c])
  {
    hide Gathers, StrictlySorted, ScopesDiffer, TransitionValid, ChangesValid;
    assert changes[t.scope := c].Keys == changes.Keys + {t.scope};
    GatherRows(init, t, changes, c);
    StillDiffer(init, t, changes);
    OneMoreChange(changes, t, c);
  }

  lemma {:induction false} OneMoreChange(changes: map<Scope, Change>, t: Transition, c: Change)
    requires ChangesValid(changes) && TransitionValid(t) && c.expected == t.expected && StrictlySorted(c.members)
    ensures ChangesValid(changes[t.scope := c])
  {
    hide StrictlySorted, MembersValid;
  }

  lemma {:induction false} StillDiffer(init: seq<Transition>, t: Transition, changes: map<Scope, Change>)
    requires ScopesDiffer(init) && Gathers(init, changes) && t.scope !in changes
    ensures ScopesDiffer(init + [t])
  {
    forall j | 0 <= j < |init|
      ensures init[j].scope != t.scope
    {
      assert init[j].scope in changes;
    }
  }

  lemma {:induction false} GatherKeys(init: seq<Transition>, t: Transition, changes: map<Scope, Change>, c: Change)
    requires forall k :: k in changes <==> Names(init, k)
    ensures forall k :: k in changes[t.scope := c] <==> Names(init + [t], k)
  {
    var all := init + [t];
    forall k
      ensures k in changes[t.scope := c] <==> Names(all, k)
    {
      if k in changes {
        var j :| 0 <= j < |init| && init[j].scope == k;
        assert all[j].scope == k;
      }
      if k == t.scope { assert all[|init|].scope == k; }
    }
  }

  lemma {:induction false} GatherRows(init: seq<Transition>, t: Transition, changes: map<Scope, Change>, c: Change)
    requires Gathers(init, changes) && t.scope !in changes
    requires c.expected == t.expected && StrictlySorted(c.members) && forall a :: a in c.members <==> a in t.members
    ensures Gathers(init + [t], changes[t.scope := c])
  {
    hide StrictlySorted;
    var all, more := init + [t], changes[t.scope := c];
    GatherKeys(init, t, changes, c);
    forall i | 0 <= i < |all|
      ensures all[i].scope in more && more[all[i].scope].expected == all[i].expected && StrictlySorted(more[all[i].scope].members)
      ensures forall a :: a in more[all[i].scope].members <==> a in all[i].members
    {
      if i < |init| { assert all[i] == init[i] && init[i].scope in changes; }
    }
  }

  /** Whether the batch continues the current epochs and no other is in doubt. */
  method CheckParents(scopes: map<Scope, ScopeState>, pending: Option<Batch>, b: Batch) returns (verdict: Verdict)
    ensures verdict.Fine? <==> Continues(State(scopes, pending, map[]), b)
    ensures verdict.Fine? || verdict.WrongEpoch? || verdict.CommitUncertain?
    ensures verdict.CommitUncertain? ==> pending.None? && exists k :: k in scopes && scopes[k].uncertain
  {
    if pending.Some? && pending.value != b { return WrongEpoch; }
    var left := b.changes.Keys;
    while left != {}
      invariant left <= b.changes.Keys
      invariant forall k :: k in b.changes && k !in left ==>
                  k in scopes && scopes[k].epoch == b.changes[k].expected && (scopes[k].uncertain ==> pending.Some?)
      decreases |left|
    {
      var k :| k in left;
      if k !in scopes || scopes[k].epoch != b.changes[k].expected { return WrongEpoch; }
      if scopes[k].uncertain && pending.None? { return CommitUncertain; }
      left := left - {k};
    }
    verdict := Fine;
  }

  class MembershipCoordinator {
    var scopes: map<Scope, ScopeState>
    var pending: Option<Batch>
    /** Leases handed out and not given back: holders of the shared lock. */
    var leases: map<nat, Lease>
    var nextLease: nat

    ghost function Now(): State
      reads this
    {
      State(scopes, pending, leases)
    }

    ghost predicate Valid()
      reads this
    {
      && Inv(Now()) && (forall id :: id in leases ==> id < nextLease)
      && forall k :: k in scopes ==> StrictlySorted(scopes[k].members)
    }

    constructor (scopes: map<Scope, ScopeState>)
      requires forall k :: k in scopes ==> !scopes[k].uncertain && StrictlySorted(scopes[k].members)
      ensures Valid() && Start(Now()) && this.scopes == scopes
    {
      this.scopes, pending, leases, nextLease := scopes, None, map[], 0;
    }

    /** A lease for an enrolled producer in the current epoch of an open scope. */
    method AuthorizeLocalMutation(scope: Scope, epoch: nat, producer: ActorId, inCallback: bool) returns (verdict: Verdict, lease: nat)
      requires Valid()
      modifies `leases, `nextLease
      ensures Valid()
      ensures verdict.Fine? <==> !inCallback && Granted(old(Now()), Lease(scope, epoch, producer))
      ensures verdict.Fine? ==> lease !in old(leases) && Now() == Acquire(old(Now()), lease, Lease(scope, epoch, producer)) && lease in leases
      ensures !verdict.Fine? ==> Now() == old(Now())
      ensures !inCallback && scope in scopes && scopes[scope].uncertain ==> verdict.CommitUncertain?
    {
      lease := nextLease;
      if inCallback { return Reentrant, lease; }
      if scope in scopes && scopes[scope].uncertain { return CommitUncertain, lease; }
      if scope !in scopes || scopes[scope].epoch != epoch { return WrongEpoch, lease; }
      var member := BinarySearch(scopes[scope].members, producer);
      if !member { return WrongEpoch, lease; }
      StepKeeps(Now(), Acquired(lease, Lease(scope, epoch, producer)));
      leases := leases[lease := Lease(scope, epoch, producer)];
      nextLease := nextLease + 1;
      verdict := Fine;
    }

    method ReleaseLease(lease: nat)
      requires Valid()
      modifies `leases
      ensures Valid() && Now() == Release(old(Now()), lease)
    {
      StepKeeps(Now(), Released(lease));
      leases := map k | k in leases && k != lease :: leases[k];
    }

    /** Advance a batch of scopes together, around its durable commit. */
    method CommitTransitions(identity: string, transitions: seq<Transition>, outcome: Outcome, inCallback: bool)
      returns (verdict: Verdict, ghost batch: Batch)
      requires Valid()
      modifies `scopes, `pending
      ensures Valid() && leases == old(leases)
      ensures verdict == Reentrant <==> inCallback
      ensures verdict == Malformed <==> !inCallback && !RequestValid(identity, transitions)
      ensures !inCallback && RequestValid(identity, transitions) ==>
                Gathers(transitions, batch.changes) && batch.identity == identity && BatchValid(batch)
      ensures verdict == Waiting <==> !inCallback && RequestValid(identity, transitions) && leases != map[]
      ensures verdict == WrongEpoch <==>
                !inCallback && RequestValid(identity, transitions) && leases == map[] && !Continues(old(Now()), batch)
      ensures verdict == Fine || verdict == Failed <==>
                !inCallback && RequestValid(identity, transitions) && leases == map[] && Continues(old(Now()), batch)
      ensures verdict == Fine ==> outcome == Durable
      ensures verdict == Failed ==> outcome != Durable
      ensures Now() == if verdict == Fine || verdict == Failed then Commit(old(Now()), batch, outcome) else old(Now())
    {
      batch := Batch(identity, map[]);
      hide AllValid, ScopesDiffer, Gathers, MembersValid, StrictlySorted;
      if inCallback { return Reentrant, batch; }
      if transitions == [] || |transitions| > MAX_SCOPES || identity == "" || |identity| > MAX_IDENTITY || '\0' in identity {
        return Malformed, batch;
      }
      var gathered, changes := GatherChanges(transitions);
      if !gathered { return Malformed, batch; }
      SomethingGathered(transitions, changes);
      var b := Batch(identity, changes);
      batch := b;
      if leases != map[] { return Waiting, batch; }
      var parents := CheckParents(scopes, pending, b);
      if !parents.Fine? { return parents, batch; }
      hide Inv;
      verdict := Settle(b, outcome);
    }

    /** The batch is alone with the lock: its durable commit ends somehow. */
    method Settle(b: Batch, outcome: Outcome) returns (verdict: Verdict)
      requires Valid() && leases == map[] && BatchValid(b) && Continues(Now(), b)
      modifies `scopes, `pending
      ensures Valid() && Now() == Commit(old(Now()), b, outcome)
      ensures verdict == if outcome == Durable then Fine else Failed
    {
      StepKeeps(Now(), Committed(b, outcome));
      AdvancedMembers(scopes, b);
      hide BatchValid, StrictlySorted, Inv;
      match outcome {
        case Durable =>
          scopes := Advance(scopes, b);
          pending := None;
          verdict := Fine;
        case Refused =>
          verdict := Failed;
        case Unknown =>
          scopes := CloseScopes(scopes, b);
          pending := Some(b);
          verdict := Failed;
      }
    }
  }

  lemma {:induction false} AdvancedMembers(scopes: map<Scope, ScopeState>, b: Batch)
    requires (forall k :: k in scopes ==> StrictlySorted(scopes[k].members)) && BatchValid(b) && forall k :: k in b.changes ==> k in scopes
    ensures forall k :: k in Advance(scopes, b) ==> StrictlySorted(Advance(scopes, b)[k].members)
    ensures forall k :: k in CloseScopes(scopes, b) ==> StrictlySorted(CloseScopes(scopes, b)[k].members)
  {
    hide StrictlySorted;
  }
}
