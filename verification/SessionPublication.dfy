/** Publishing a local edit durably: the intent is stored, the operation pushed to
    the log, the undo history saved, the intent cleared. Any write can fail with
    or without having happened, and the process can die around any of them, also
    while recovering. An edit whose intent was stored ends up in the log exactly
    once, under its own sequence, with its history. */
module SessionPublication {
  import opened Ids
  import opened UndoHistories

  type Payload = string

  /** What the undo history looks like after an edit. */
  datatype Snapshot = Snapshot(entries: seq<Group>, cursor: nat, retired: seq<Group>)

  datatype Intent = Intent(sequence: nat, payload: Payload, snapshot: Snapshot)

  /** What survives a crash: this producer's log, its saved history, and the slot
      for one intent. */
  datatype Durable = Durable(log: map<nat, Payload>, snapshot: Option<Snapshot>, pending: Option<Intent>)

  /** How a write to durable storage ends. */
  datatype Fate = Done | Failed | FailedAfterwards | DiedBefore | DiedAfterwards

  predicate TookEffect(f: Fate) {
    f.Done? || f.FailedAfterwards? || f.DiedAfterwards?
  }

  predicate Died(f: Fate) {
    f.DiedBefore? || f.DiedAfterwards?
  }

  const LAST_SEQUENCE: nat := U64 - 1

  /** The next sequence the log takes. */
  function NextOf(log: map<nat, Payload>): nat {
    |log| + 1
  }

  /** The log takes a delivery it has, or the next one. */
  predicate Takes(log: map<nat, Payload>, sequence: nat, payload: Payload) {
    && 0 < sequence < LAST_SEQUENCE
    && if sequence in log then log[sequence] == payload else sequence == NextOf(log)
  }

  // ---- The session and its durable state ---------------------------------

  datatype Session =
    | Down
    | Up(next: nat, poisoned: bool, blocked: bool, complete: bool)

  /** Intents stored so far and the history last meant to be saved go with the
      state for the specification only. */
  datatype State = State(disk: Durable, session: Session, intents: seq<Intent>, latest: Option<Snapshot>)

  predicate Ready(s: Session) {
    s.Up? && !s.poisoned && s.complete
  }

  function Poison(s: Session): Session {
    if s.Up? then s.(poisoned := true) else s
  }

  /** After a write that ended badly the session is dead or poisoned. */
  function Hurt(s: State, f: Fate): State {
    s.(session := if Died(f) then Down else Poison(s.session))
  }

  function StoreIntent(s: State, i: Intent, f: Fate): State {
    if TookEffect(f) then s.(disk := s.disk.(pending := Some(i)), intents := s.intents + [i], latest := Some(i.snapshot)) else s
  }

  function Push(s: State, sequence: nat, payload: Payload, f: Fate): State {
    if TookEffect(f) && Takes(s.disk.log, sequence, payload) then s.(disk := s.disk.(log := s.disk.log[sequence := payload])) else s
  }

  function SaveSnapshot(s: State, snapshot: Snapshot, f: Fate): State {
    if TookEffect(f) then s.(disk := s.disk.(snapshot := Some(snapshot))) else s
  }

  function ClearIntent(s: State, f: Fate): State {
    if TookEffect(f) then s.(disk := s.disk.(pending := None)) else s
  }

  /** The fates of the four writes of a publication. */
  datatype Fates = Fates(intent: Fate, push: Fate, save: Fate, clear: Fate)

  /** Publish an edit the session has applied in memory. */
  function Publish(s: State, encoded: Option<Payload>, snapshot: Snapshot, f: Fates): State
    requires Ready(s.session)
  {
    var next := s.session.next;
    if next >= LAST_SEQUENCE || encoded.None? then s.(session := Poison(s.session))
    else
      var s1 := StoreIntent(s, Intent(next, encoded.value, snapshot), f.intent);
      if !f.intent.Done? then Hurt(s1, f.intent)
      else
        var s2 := Push(s1, next, encoded.value, f.push);
        if !f.push.Done? || !Takes(s1.disk.log, next, encoded.value) then Hurt(s2, f.push)
        else
          var s3 := SaveSnapshot(s2.(session := s2.session.(next := next + 1)), snapshot, f.save);
          if !f.save.Done? then Hurt(s3, f.save)
          else
            var s4 := ClearIntent(s3, f.clear);
            if !f.clear.Done? then Hurt(s4, f.clear) else s4
  }

  /** Finish an intent left over from before. Refused writes leave the session as
      it was; `authorized` says whether this actor still may write. */
  function Reconcile(s: State, authorized: bool, f: Fates): (r: (State, bool))
    requires s.session.Up?
  {
    if s.disk.pending.None? then (s.(session := s.session.(blocked := false)), true)
    else if !authorized then (s.(session := s.session.(blocked := true, complete := false)), true)
    else
      var i := s.disk.pending.value;
      if i.sequence >= LAST_SEQUENCE then (s, false)
      else
        var s1 := Push(s, i.sequence, i.payload, f.push);
        if !f.push.Done? || !Takes(s.disk.log, i.sequence, i.payload) then (Fallen(s1, f.push), false)
        else
          var s2 := SaveSnapshot(s1, i.snapshot, f.save);
          if !f.save.Done? then (Fallen(s2, f.save), false)
          else
            var s3 := ClearIntent(s2, f.clear);
            if !f.clear.Done? then (Fallen(s3, f.clear), false)
            else (s3.(session := s3.session.(blocked := false)), true)
  }

  function Fallen(s: State, f: Fate): State {
    if Died(f) then s.(session := Down) else s
  }

  /** Open a session on what is on disk: finish a pending intent, replay the log,
      see whether anything is still missing. A failure leaves no session. */
  function Open(s: State, authorized: bool, clean: bool, f: Fates): State {
    var (s1, ok) := Reconcile(s.(session := Up(1, false, false, true)), authorized, f);
    if !ok || s1.session.Down? then s1.(session := Down)
    else Replayed(s1, clean)
  }

  /** The session is complete if nothing from anyone is waiting or was rejected. */
  function Completed(s: State, clean: bool): State
    requires s.session.Up?
  {
    s.(session := s.session.(complete := clean && !s.session.poisoned && !s.session.blocked))
  }

  /** Replay raises the next sequence above every own delivery. */
  function Replayed(s: State, clean: bool): State
    requires s.session.Up?
  {
    var next := if s.session.next > NextOf(s.disk.log) then s.session.next else NextOf(s.disk.log);
    Completed(s.(session := s.session.(next := next)), clean)
  }

  /** Replay of the log gets through, or breaks off after some own deliveries. */
  datatype Replay = Whole(clean: bool) | Broken(seen: nat)

  /** Recover an open session: as opening, but it keeps what it is on failure. */
  function Recover(s: State, authorized: bool, replay: Replay, f: Fates): State
    requires s.session.Up?
  {
    var (s1, ok) := Reconcile(s, authorized, f);
    if !ok || s1.session.Down? then s1
    else
      match replay
      case Whole(clean) => Replayed(s1, clean)
      case Broken(seen) =>
        var reached := if seen < |s1.disk.log| then seen + 1 else NextOf(s1.disk.log);
        s1.(session := s1.session.(next := if s1.session.next > reached then s1.session.next else reached))
  }

  /** Save the history alone, after groups were joined or retirements acknowledged. */
  function Checkpoint(s: State, snapshot: Snapshot, f: Fate): State
    requires Ready(s.session)
  {
    var s1 := SaveSnapshot(s, snapshot, f);
    var s2 := if TookEffect(f) then s1.(latest := Some(snapshot)) else s1;
    if f.Done? then s2 else Hurt(s2, f)
  }

  /** What can happen to a session and its storage. */
  datatype Event =
    | Edited(encoded: Option<Payload>, snapshot: Snapshot, fates: Fates)
    | Reopened(authorized: bool, clean: bool, fates: Fates)
    | Recovered(authorized: bool, replay: Replay, fates: Fates)
    | Saved(snapshot: Snapshot, fate: Fate)
    | Polled(clean: bool)
    | Killed

  /** Calls on a session that is not ready, or not there, are refused. */
  function Step(s: State, e: Event): State {
    match e
    case Edited(encoded, snapshot, f) => if Ready(s.session) then Publish(s, encoded, snapshot, f) else s
    case Reopened(authorized, clean, f) => Open(s, authorized, clean, f)
    case Recovered(authorized, replay, f) => if s.session.Up? then Recover(s, authorized, replay, f) else s
    case Saved(snapshot, f) => if Ready(s.session) then Checkpoint(s, snapshot, f) else s
    case Polled(clean) => if s.session.Up? then Completed(s, clean) else s
    case Killed => s.(session := Down)
  }

  function Run(s: State, events: seq<Event>): State {
    if events == [] then s else Step(Run(s, events[..|events| - 1]), events[|events| - 1])
  }

  const FRESH := State(Durable(map[], None, None), Down, [], None)

  // ---- What every run keeps ----------------------------------------------

  /** Intents are numbered from 1 on without gaps. */
  predicate Numbered(intents: seq<Intent>) {
    forall i :: 0 <= i < |intents| ==> intents[i].sequence == i + 1 < LAST_SEQUENCE
  }

  /** The log holds the first `n` intents, each once under its own sequence, and
      nothing else. */
  ghost predicate Holds(log: map<nat, Payload>, intents: seq<Intent>, n: nat)
    requires n <= |intents|
  {
    && |log| == n
    && (forall k :: k in log <==> 1 <= k <= n)
    && (forall k :: k in log ==> log[k] == intents[k - 1].payload)
  }

  /** Nothing is pending: every intent is in the log, the history is saved. */
  ghost predicate Idle(disk: Durable, intents: seq<Intent>, latest: Option<Snapshot>) {
    disk.pending.None? && Holds(disk.log, intents, |intents|) && disk.snapshot == latest
  }

  /** The last intent is in its slot. */
  ghost predicate Intended(disk: Durable, intents: seq<Intent>, latest: Option<Snapshot>) {
    && intents != [] && disk.pending == Some(intents[|intents| - 1])
    && latest == Some(intents[|intents| - 1].snapshot)
    && (Holds(disk.log, intents, |intents|) || Holds(disk.log, intents, |intents| - 1))
  }

  ghost predicate Pushed(disk: Durable, intents: seq<Intent>, latest: Option<Snapshot>) {
    Intended(disk, intents, latest) && Holds(disk.log, intents, |intents|)
  }

  ghost predicate Kept(disk: Durable, intents: seq<Intent>, latest: Option<Snapshot>) {
    Pushed(disk, intents, latest) && disk.snapshot == latest
  }

  ghost predicate Stored(s: State) {
    Numbered(s.intents) && (Idle(s.disk, s.intents, s.latest) || Intended(s.disk, s.intents, s.latest))
  }

  /** The storage is in one of its two states, and while an intent is pending no
      session can make another edit. */
  ghost predicate Inv(s: State) {
    && Stored(s)
    && (s.session.Up? ==>
          && (s.session.blocked ==> !s.session.complete)
          && (s.disk.pending.Some? ==> s.session.poisoned || s.session.blocked))
  }

  /** Deliveries are never changed or removed. */
  ghost predicate Extends(log: map<nat, Payload>, more: map<nat, Payload>) {
    |log| <= |more| && forall k :: k in log ==> k in more && more[k] == log[k]
  }

  lemma {:induction false} PushExtends(s: State, sequence: nat, payload: Payload, f: Fate)
    ensures Extends(s.disk.log, Push(s, sequence, payload, f).disk.log)
  {
    var log := s.disk.log;
    if sequence in log && log[sequence] == payload {
      assert log[sequence := payload] == log;
    } else if sequence !in log {
      assert log[sequence := payload].Keys == log.Keys + {sequence};
    }
  }

  lemma {:induction false} PublishExtends(s: State, encoded: Option<Payload>, snapshot: Snapshot, f: Fates)
    requires Ready(s.session)
    ensures Extends(s.disk.log, Publish(s, encoded, snapshot, f).disk.log)
  {
    if encoded.Some? {
      PushExtends(StoreIntent(s, Intent(s.session.next, encoded.value, snapshot), f.intent), s.session.next, encoded.value, f.push);
    }
    hide Push;
  }

  lemma {:induction false} ReconcileExtends(s: State, authorized: bool, f: Fates)
    requires s.session.Up?
    ensures Extends(s.disk.log, Reconcile(s, authorized, f).0.disk.log)
  {
    if s.disk.pending.Some? { PushExtends(s, s.disk.pending.value.sequence, s.disk.pending.value.payload, f.push); }
    hide Push;
  }

  /** Whatever happens, what is in the log stays as it is. */
  lemma {:induction false} LogIsAppendOnly(s: State, e: Event)
    ensures Extends(s.disk.log, Step(s, e).disk.log)
  {
    match e {
      case Edited(encoded, snapshot, f) =>
        if Ready(s.session) { PublishExtends(s, encoded, snapshot, f); }
      case Reopened(authorized, clean, f) =>
        ReconcileExtends(s.(session := Up(1, false, false, true)), authorized, f);
      case Recovered(authorized, clean, f) =>
        if s.session.Up? { ReconcileExtends(s, authorized, f); }
      case Saved(snapshot, f) =>
      case Polled(clean) =>
      case Killed =>
    }
    hide Publish, Reconcile;
  }

  lemma {:induction false} PendingIs(s: State)
    requires Stored(s)
    ensures s.disk.pending.None? <==> Idle(s.disk, s.intents, s.latest)
    ensures s.disk.pending.Some? <==> Intended(s.disk, s.intents, s.latest)
    ensures s.disk.pending.Some? ==> s.intents != [] && s.disk.pending == Some(s.intents[|s.intents| - 1])
  {
  }

  // ---- The four writes ---------------------------------------------------

  lemma {:induction false} IntentKeeps(s: State, i: Intent, f: Fate)
    requires Stored(s) && s.disk.pending.None? && i.sequence == NextOf(s.disk.log) < LAST_SEQUENCE
    ensures Stored(StoreIntent(s, i, f))
    ensures TookEffect(f) ==> StoreIntent(s, i, f).intents == s.intents + [i]
                              && Intended(StoreIntent(s, i, f).disk, s.intents + [i], Some(i.snapshot))
  {
    var more := s.intents + [i];
    assert forall k :: 0 <= k < |s.intents| ==> more[k] == s.intents[k];
    assert Holds(s.disk.log, more, |s.intents|);
  }

  /** Pushing the pending intent puts it where it belongs, whether or not it was
      there already. */
  lemma {:induction false} PushKeeps(s: State, f: Fate)
    requires Stored(s) && s.disk.pending.Some?
    ensures var i := s.disk.pending.value;
            && i.sequence < LAST_SEQUENCE && Takes(s.disk.log, i.sequence, i.payload)
            && Stored(Push(s, i.sequence, i.payload, f))
            && (TookEffect(f) ==>
                  Pushed(Push(s, i.sequence, i.payload, f).disk, s.intents, s.latest))
  {
    var i, log := s.disk.pending.value, s.disk.log;
    if Holds(log, s.intents, |s.intents|) {
      assert log[i.sequence := i.payload] == log;
    } else {
      OneMoreHeld(log, s.intents);
    }
  }

  lemma {:induction false} OneMoreHeld(log: map<nat, Payload>, intents: seq<Intent>)
    requires Numbered(intents) && intents != [] && Holds(log, intents, |intents| - 1)
    ensures var i := intents[|intents| - 1];
            i.sequence !in log && i.sequence == NextOf(log) && Holds(log[i.sequence := i.payload], intents, |intents|)
  {
    var i := intents[|intents| - 1];
    var more := log[i.sequence := i.payload];
    assert i.sequence == |intents| && i.sequence !in log;
    OneMoreKey(log, i.sequence, i.payload);
  }

  lemma {:induction false} OneMoreKey(log: map<nat, Payload>, k: nat, payload: Payload)
    requires k !in log
    ensures |log[k := payload]| == |log| + 1
  {
    assert log[k := payload].Keys == log.Keys + {k};
  }

  lemma {:induction false} SaveKeeps(s: State, f: Fate)
    requires Stored(s) && s.disk.pending.Some? && Pushed(s.disk, s.intents, s.latest)
    ensures var t := SaveSnapshot(s, s.disk.pending.value.snapshot, f);
            Stored(t) && (TookEffect(f) ==> Kept(t.disk, t.intents, t.latest))
  {
    hide Holds;
  }

  lemma {:induction false} ClearKeeps(s: State, f: Fate)
    requires Stored(s) && Kept(s.disk, s.intents, s.latest)
    ensures Stored(ClearIntent(s, f)) && (TookEffect(f) ==> ClearIntent(s, f).disk.pending.None?)
  {
    hide Holds;
  }

  /** An edit finds the slot free, and whatever happens to it leaves the storage
      consistent. */
  lemma {:induction false} PublishKeeps(s: State, encoded: Option<Payload>, snapshot: Snapshot, f: Fates)
    requires Inv(s) && Ready(s.session)
    requires encoded.Some? && s.session.next < LAST_SEQUENCE ==> s.session.next == NextOf(s.disk.log)
    ensures s.disk.pending.None?
    ensures Inv(Publish(s, encoded, snapshot, f))
  {
    if s.session.next < LAST_SEQUENCE && encoded.Some? {
      WritesKeep(s, Intent(s.session.next, encoded.value, snapshot), f);
    }
    hide Idle, Intended, Pushed, Kept, Holds, Takes, NextOf;
  }

  /** The four writes of a publication, as far as they get. */
  lemma {:induction false} WritesKeep(s: State, i: Intent, f: Fates)
    requires Stored(s) && s.disk.pending.None? && i.sequence == NextOf(s.disk.log) < LAST_SEQUENCE && s.session.Up?
    ensures var s1 := StoreIntent(s, i, f.intent);
            && Stored(s1)
            && (f.intent.Done? ==>
                  var s2 := Push(s1, i.sequence, i.payload, f.push);
                  && Takes(s1.disk.log, i.sequence, i.payload) && Stored(s2)
                  && (f.push.Done? ==>
                        var s3 := SaveSnapshot(s2.(session := s2.session.(next := i.sequence + 1)), i.snapshot, f.save);
                        && Stored(s3)
                        && NextOf(s3.disk.log) == i.sequence + 1
                        && (f.save.Done? ==> Stored(ClearIntent(s3, f.clear)) && (f.clear.Done? ==> ClearIntent(s3, f.clear).disk.pending.None?))))
  {
    var s1 := StoreIntent(s, i, f.intent);
    IntentKeeps(s, i, f.intent);
    if f.intent.Done? {
      PushKeeps(s1, f.push);
      var s2 := Push(s1, i.sequence, i.payload, f.push);
      if f.push.Done? {
        var up := s2.(session := s2.session.(next := i.sequence + 1));
        SaveKeeps(up, f.save);
        if f.save.Done? { ClearKeeps(SaveSnapshot(up, i.snapshot, f.save), f.clear); }
        PushedLength(s2.disk, s1.intents, s2.latest);
        IdleLength(s.disk, s.intents, s.latest);
      }
    }
    hide Idle, Intended, Pushed, Kept, Holds, Takes, NextOf, Numbered;
  }

  lemma {:induction false} PushedLength(disk: Durable, intents: seq<Intent>, latest: Option<Snapshot>)
    requires Pushed(disk, intents, latest)
    ensures NextOf(disk.log) == |intents| + 1
  {
  }

  lemma {:induction false} IdleLength(disk: Durable, intents: seq<Intent>, latest: Option<Snapshot>)
    requires Idle(disk, intents, latest)
    ensures NextOf(disk.log) == |intents| + 1
  {
  }

  lemma {:induction false} ReconcileKeeps(s: State, authorized: bool, f: Fates)
    requires s.session.Up? && Stored(s)
    ensures var r := Reconcile(s, authorized, f);
            && Stored(r.0) && r.0.intents == s.intents && r.0.latest == s.latest
            && (r.0.disk.pending.Some? ==> r.0.disk.pending == s.disk.pending)
            && (r.0.session.Up? ==> r.0.session.poisoned == s.session.poisoned && r.0.session.next == s.session.next)
            && (r.1 && r.0.session.Up? ==>
                  if r.0.disk.pending.Some? then !authorized && r.0.session.blocked && !r.0.session.complete else !r.0.session.blocked)
            && (r.1 && r.0.session.Up? && !r.0.session.blocked ==> r.0.session.complete == s.session.complete)
            && (!r.1 && r.0.session.Up? ==> r.0.session == s.session && s.disk.pending.Some?)
            && (s.disk.pending.Some? && authorized && f == ALL_DONE ==> r.1 && r.0.session.Up? && r.0.disk.pending.None?)
  {
    hide Idle, Intended, Pushed, Kept, Holds, Takes, Numbered;
    if s.disk.pending.Some? && authorized { FinishKeeps(s, f); }
  }

  /** The three writes that finish a pending intent, as far as they get. */
  lemma {:induction false} FinishKeeps(s: State, f: Fates)
    requires s.session.Up? && Stored(s) && s.disk.pending.Some?
    ensures var i := s.disk.pending.value;
            var s1 := Push(s, i.sequence, i.payload, f.push);
            var s2 := SaveSnapshot(s1, i.snapshot, f.save);
            var s3 := ClearIntent(s2, f.clear);
            && i.sequence < LAST_SEQUENCE && Takes(s.disk.log, i.sequence, i.payload) && Stored(s1)
            && (f.push.Done? ==> Stored(s2) && (f.save.Done? ==> Stored(s3) && (f.clear.Done? ==> s3.disk.pending.None?)))
  {
    var i := s.disk.pending.value;
    PushKeeps(s, f.push);
    var s1 := Push(s, i.sequence, i.payload, f.push);
    if f.push.Done? {
      SaveKeeps(s1, f.save);
      if f.save.Done? { ClearKeeps(SaveSnapshot(s1, i.snapshot, f.save), f.clear); }
    }
    hide Idle, Intended, Pushed, Kept, Holds, Takes, Numbered;
  }

  const ALL_DONE := Fates(Done, Done, Done, Done)

  // ---- Every run ---------------------------------------------------------

  /** What a session may do at any time, except to edit with a sequence the log is
      already past: that is the one test the code leaves out. */
  predicate UpToDate(s: State, e: Event) {
    e.Edited? && e.encoded.Some? && Ready(s.session) && s.session.next < LAST_SEQUENCE ==> s.session.next == NextOf(s.disk.log)
  }

  lemma {:induction false} StepKeeps(s: State, e: Event)
    requires Inv(s) && UpToDate(s, e)
    ensures Inv(Step(s, e))
  {
    match e {
      case Edited(encoded, snapshot, f) =>
        if Ready(s.session) { PublishKeeps(s, encoded, snapshot, f); }
      case Reopened(authorized, clean, f) =>
        OpenKeeps(s, authorized, clean, f);
      case Recovered(authorized, replay, f) =>
        if s.session.Up? { RecoverKeeps(s, authorized, replay, f); }
      case Saved(snapshot, f) =>
        if Ready(s.session) { CheckpointKeeps(s, snapshot, f); }
      case Polled(clean) =>
      case Killed =>
    }
    hide Idle, Intended, Pushed, Kept, Holds, Open, Recover, Publish, Checkpoint, Stored;
  }

  /** Opening is safe whatever happened before, as long as the storage is consistent. */
  lemma {:induction false} OpenKeeps(s: State, authorized: bool, clean: bool, f: Fates)
    requires Stored(s)
    ensures Inv(Open(s, authorized, clean, f))
  {
    var up := s.(session := Up(1, false, false, true));
    ReconcileKeeps(up, authorized, f);
    hide Idle, Intended, Pushed, Kept, Holds, Reconcile, Numbered, Stored;
  }

  lemma {:induction false} RecoverKeeps(s: State, authorized: bool, replay: Replay, f: Fates)
    requires Inv(s) && s.session.Up?
    ensures Inv(Recover(s, authorized, replay, f))
  {
    ReconcileKeeps(s, authorized, f);
    hide Idle, Intended, Pushed, Kept, Holds, Reconcile, Numbered, Stored;
  }

  lemma {:induction false} CheckpointKeeps(s: State, snapshot: Snapshot, f: Fate)
    requires Inv(s) && Ready(s.session)
    ensures Inv(Checkpoint(s, snapshot, f))
  {
    hide Holds, Numbered;
  }

  predicate AllUpToDate(s: State, events: seq<Event>) {
    forall i :: 0 <= i < |events| ==> UpToDate(Run(s, events[..i]), events[i])
  }

  /** The storage is consistent in every state a run can reach whose edits are up
      to date, with crashes anywhere. */
  lemma {:induction false} RunKeeps(events: seq<Event>)
    requires AllUpToDate(FRESH, events)
    ensures Inv(Run(FRESH, events))
  {
    hide Inv, UpToDate, Step, Informed;
    if events == [] {
      FreshIsInformed();
    } else {
      var init, last := events[..|events| - 1], |events| - 1;
      PrefixUpToDate(events, last);
      RunKeeps(init);
      StepKeeps(Run(FRESH, init), events[last]);
    }
  }

  lemma {:induction false} PrefixUpToDate(events: seq<Event>, n: nat)
    requires AllUpToDate(FRESH, events) && n <= |events|
    ensures AllUpToDate(FRESH, events[..n])
  {
    var init := events[..n];
    forall i | 0 <= i < |init| ensures UpToDate(Run(FRESH, init[..i]), init[i]) {
      assert init[..i] == events[..i];
    }
  }

  /** The same event, its writes ending in some other way. */
  function WithFates(e: Event, f: Fates): Event {
    match e
    case Edited(encoded, snapshot, _) => Edited(encoded, snapshot, f)
    case _ => e
  }

  /** However the writes of the last edit end, the storage is consistent. */
  ghost predicate SafeAt(events: seq<Event>, i: nat)
    requires i < |events|
  {
    forall f :: Stored(Step(Run(FRESH, events[..i]), WithFates(events[i], f)))
  }

  /** A run is safe at each of its steps, however that step's writes end, exactly
      when each of its edits is made by a session whose sequence is up to date. */
  lemma {:induction false} RunIsSafe(events: seq<Event>)
    ensures AllUpToDate(FRESH, events) <==> forall i :: 0 <= i < |events| ==> SafeAt(events, i)
  {
    hide Run, Step, Inv, Stored, UpToDate;
    if AllUpToDate(FRESH, events) {
      forall i | 0 <= i < |events| ensures SafeAt(events, i) {
        PrefixUpToDate(events, i);
        RunKeeps(events[..i]);
        assert UpToDate(Run(FRESH, events[..i]), events[i]);
        UpToDateIsSafe(events, i);
      }
    } else {
      var n := FirstStale(events);
      PrefixUpToDate(events[..n], n);
      RunKeeps(events[..n]);
      StaleIsUnsafe(events, n);
    }
  }

  lemma {:induction false} UpToDateIsSafe(events: seq<Event>, i: nat)
    requires i < |events| && Inv(Run(FRESH, events[..i])) && UpToDate(Run(FRESH, events[..i]), events[i])
    ensures SafeAt(events, i)
  {
    hide Run, Step;
    var s := Run(FRESH, events[..i]);
    forall f ensures Stored(Step(s, WithFates(events[i], f))) {
      StepKeeps(s, WithFates(events[i], f));
    }
  }

  lemma {:induction false} FirstStale(events: seq<Event>) returns (n: nat)
    requires !AllUpToDate(FRESH, events)
    ensures n < |events| && AllUpToDate(FRESH, events[..n]) && !UpToDate(Run(FRESH, events[..n]), events[n])
  {
    hide Run, UpToDate;
    var m :| 0 <= m < |events| && !UpToDate(Run(FRESH, events[..m]), events[m]);
    n := 0;
    while UpToDate(Run(FRESH, events[..n]), events[n])
      invariant n <= m
      invariant forall i :: 0 <= i < n ==> UpToDate(Run(FRESH, events[..i]), events[i])
      decreases m - n
    {
      n := n + 1;
    }
    var init := events[..n];
    forall i | 0 <= i < n ensures UpToDate(Run(FRESH, init[..i]), init[i]) {
      assert init[..i] == events[..i];
    }
  }

  lemma {:induction false} StaleIsUnsafe(events: seq<Event>, n: nat)
    requires n < |events| && Inv(Run(FRESH, events[..n])) && !UpToDate(Run(FRESH, events[..n]), events[n])
    ensures !SafeAt(events, n)
  {
    hide Run, Stored, Publish;
    var s, e := Run(FRESH, events[..n]), events[n];
    StaleIntent(s, e.encoded.value, e.snapshot);
    assert Step(s, WithFates(e, DIES)) == Publish(s, e.encoded, e.snapshot, DIES);
  }

  // ---- Runs that are up to date ------------------------------------------

  /** A healthy session knows the next sequence; one blocked on membership may be
      behind. */
  ghost predicate Informed(s: State) {
    && Inv(s)
    && (s.session.Up? && !s.session.poisoned ==>
          && s.session.next <= NextOf(s.disk.log)
          && (!s.session.blocked ==> s.session.next == NextOf(s.disk.log)))
  }

  /** The one event after which a session can be stale: a recovery, of a session
      blocked on membership, whose replay breaks off. */
  predicate Careful(s: State, e: Event) {
    !(e.Recovered? && e.replay.Broken? && s.session.Up? && s.session.blocked)
  }

  lemma {:induction false} StepInforms(s: State, e: Event)
    requires Informed(s) && Careful(s, e)
    ensures UpToDate(s, e) && Informed(Step(s, e))
  {
    assert UpToDate(s, e);
    match e {
      case Edited(encoded, snapshot, f) =>
        if Ready(s.session) { EditInforms(s, encoded, snapshot, f); }
      case Reopened(authorized, clean, f) =>
        OpenInforms(s, authorized, clean, f);
      case Recovered(authorized, replay, f) =>
        if s.session.Up? { RecoverInforms(s, authorized, replay, f); }
      case Saved(snapshot, f) =>
        if Ready(s.session) { CheckpointKeeps(s, snapshot, f); }
      case Polled(clean) =>
      case Killed =>
    }
    hide Stored, Open, Recover, Publish;
  }

  lemma {:induction false} EditInforms(s: State, encoded: Option<Payload>, snapshot: Snapshot, f: Fates)
    requires Informed(s) && Ready(s.session)
    ensures Informed(Publish(s, encoded, snapshot, f))
  {
    PublishKeeps(s, encoded, snapshot, f);
    if encoded.Some? && s.session.next < LAST_SEQUENCE {
      WritesKeep(s, Intent(s.session.next, encoded.value, snapshot), f);
    }
    hide Idle, Intended, Pushed, Kept, Holds, Numbered, Stored, Takes, NextOf;
  }

  lemma {:induction false} OpenInforms(s: State, authorized: bool, clean: bool, f: Fates)
    requires Stored(s)
    ensures Informed(Open(s, authorized, clean, f))
  {
    OpenKeeps(s, authorized, clean, f);
    ReconcileKeeps(s.(session := Up(1, false, false, true)), authorized, f);
    hide Idle, Intended, Pushed, Kept, Holds, Reconcile, Numbered, Stored;
  }

  lemma {:induction false} RecoverInforms(s: State, authorized: bool, replay: Replay, f: Fates)
    requires Informed(s) && s.session.Up? && !(replay.Broken? && s.session.blocked)
    ensures Informed(Recover(s, authorized, replay, f))
  {
    RecoverKeeps(s, authorized, replay, f);
    ReconcileKeeps(s, authorized, f);
    ReconcileExtends(s, authorized, f);
    if s.disk.pending.None? { NothingToReconcile(s, authorized, f); }
    hide Idle, Intended, Pushed, Kept, Holds, Reconcile, Numbered, Stored;
  }

  /** With nothing pending, reconciliation leaves the storage alone. */
  lemma {:induction false} NothingToReconcile(s: State, authorized: bool, f: Fates)
    requires s.session.Up? && s.disk.pending.None?
    ensures Reconcile(s, authorized, f).0.disk == s.disk
  {
  }

  predicate AllCareful(s: State, events: seq<Event>) {
    forall i :: 0 <= i < |events| ==> Careful(Run(s, events[..i]), events[i])
  }

  /** Unless a blocked session's recovery breaks off, every edit is up to date. */
  lemma {:induction false} CarefulIsUpToDate(events: seq<Event>)
    requires AllCareful(FRESH, events)
    ensures AllUpToDate(FRESH, events) && Informed(Run(FRESH, events))
  {
    hide Informed, Careful, UpToDate, Step;
    if events == [] {
      FreshIsInformed();
    } else {
      var init, last := events[..|events| - 1], |events| - 1;
      forall i | 0 <= i < |init| ensures Careful(Run(FRESH, init[..i]), init[i]) {
        assert init[..i] == events[..i];
      }
      CarefulIsUpToDate(init);
      StepInforms(Run(FRESH, init), events[last]);
      forall i | 0 <= i < |events| ensures UpToDate(Run(FRESH, events[..i]), events[i]) {
        if i < last {
          assert init[..i] == events[..i];
          assert UpToDate(Run(FRESH, init[..i]), init[i]);
        }
      }
    }
  }

  lemma FreshIsInformed()
    ensures Run(FRESH, []) == FRESH && Inv(FRESH) && Informed(FRESH)
  {
  }

  /** Whatever happened, an authorized opening that gets through leaves every edit
      whose intent was stored in the log, once, under its own sequence, the last
      one's history saved, and nothing pending. */
  lemma {:induction false} ReopenCompletes(s: State, clean: bool)
    requires Stored(s)
    ensures var t := Open(s, true, clean, ALL_DONE);
            && t.intents == s.intents && t.disk.pending.None? && t.disk.snapshot == s.latest
            && Holds(t.disk.log, s.intents, |s.intents|)
            && t.session == Up(|s.intents| + 1, false, false, clean)
  {
    var up := s.(session := Up(1, false, false, true));
    ReconcileKeeps(up, true, ALL_DONE);
    if s.disk.pending.None? { NothingToReconcile(up, true, ALL_DONE); }
    var t := Open(s, true, clean, ALL_DONE);
    PendingIs(t);
    IdleLength(t.disk, t.intents, t.latest);
    hide Intended, Pushed, Kept, Holds, Reconcile, Numbered;
  }

  /** An edit can be published safely, however its writes end, exactly when the
      session's next sequence is the next of the log. */
  lemma {:induction false} PublishIsSafe(s: State, encoded: Payload, snapshot: Snapshot)
    requires Stored(s) && s.disk.pending.None? && Ready(s.session) && NextOf(s.disk.log) < LAST_SEQUENCE && s.session.next < LAST_SEQUENCE
    ensures (forall f :: Stored(Publish(s, Some(encoded), snapshot, f))) <==> s.session.next == NextOf(s.disk.log)
  {
    if s.session.next == NextOf(s.disk.log) {
      forall f
        ensures Stored(Publish(s, Some(encoded), snapshot, f))
      {
        WritesKeep(s, Intent(s.session.next, encoded, snapshot), f);
        hide Idle, Intended, Pushed, Kept, Holds, Takes, NextOf, Numbered, Stored;
      }
    } else {
      StaleIntent(s, encoded, snapshot);
    }
  }

  lemma {:induction false} StaleIntent(s: State, encoded: Payload, snapshot: Snapshot)
    requires Stored(s) && s.disk.pending.None? && Ready(s.session) && s.session.next != NextOf(s.disk.log) && s.session.next < LAST_SEQUENCE
    ensures !Stored(Publish(s, Some(encoded), snapshot, Fates(DiedAfterwards, Done, Done, Done)))
  {
    var t := Publish(s, Some(encoded), snapshot, Fates(DiedAfterwards, Done, Done, Done));
    IdleLength(s.disk, s.intents, s.latest);
    assert t.intents[|s.intents|].sequence == s.session.next;
  }

  // ---- Where care is needed ----------------------------------------------

  const NO_HISTORY := Snapshot([], 0, [])

  const FIRST := Intent(1, "a", NO_HISTORY)
  const SECOND := Intent(1, "b", NO_HISTORY)
  const DIES := Fates(DiedAfterwards, Done, Done, Done)

  /** A session dies after storing its first intent; it is reopened without
      authority, later recovered with it, but the replay breaks off; a poll makes it
      look complete, and the next edit takes the sequence that was just used. */
  const STALE_RUN := [
    Reopened(true, true, ALL_DONE), Edited(Some("a"), NO_HISTORY, DIES), Reopened(false, true, ALL_DONE),
    Recovered(true, Broken(0), ALL_DONE), Polled(true), Edited(Some("b"), NO_HISTORY, ALL_DONE)]

  function Pending(log: map<nat, Payload>, session: Session): State {
    State(Durable(log, None, Some(FIRST)), session, [FIRST], Some(NO_HISTORY))
  }

  function Published(session: Session): State {
    State(Durable(map[1 := "a"], Some(NO_HISTORY), None), session, [FIRST], Some(NO_HISTORY))
  }

  lemma {:induction false} StaleSteps()
    ensures Step(Step(FRESH, STALE_RUN[0]), STALE_RUN[1]) == Pending(map[], Down)
    ensures Step(Pending(map[], Down), STALE_RUN[2]) == Pending(map[], Up(1, false, true, false))
  {
    assert Step(FRESH, STALE_RUN[0]) == FRESH.(session := Up(1, false, false, true));
  }

  lemma {:induction false} StaleRecovery()
    ensures Step(Pending(map[], Up(1, false, true, false)), STALE_RUN[3]) == Published(Up(1, false, false, false))
    ensures Step(Published(Up(1, false, false, false)), STALE_RUN[4]) == Published(Up(1, false, false, true))
  {
    var log: map<nat, Payload> := map[];
    assert log[1 := "a"] == map[1 := "a"];
  }

  lemma {:induction false} StaleEdit(clean: bool, f: Fates)
    ensures var t := Step(Published(Up(1, false, false, true)), STALE_RUN[5]);
            t.disk.pending == Some(SECOND) && t.disk.log == map[1 := "a"] && Open(t, true, clean, f).session.Down?
  {
    var log: map<nat, Payload> := map[1 := "a"];
    assert log[1] == "a" && "a" != "b";
    assert !Takes(log, 1, "b");
  }

  /** After that no opening succeeds any more: the pending intent can not be pushed. */
  lemma {:induction false} StaleSequenceLocksOut(clean: bool, f: Fates)
    ensures !AllUpToDate(FRESH, STALE_RUN)
    ensures Open(Run(FRESH, STALE_RUN), true, clean, f).session.Down?
  {
    var e := STALE_RUN;
    assert |e| == 6 && e[5] == Edited(Some("b"), NO_HISTORY, ALL_DONE);
    hide *;
    RunSix(e);
    StaleSteps();
    StaleRecovery();
    StaleEdit(clean, f);
    NotUpToDate(e);
  }

  lemma {:induction false} NotUpToDate(e: seq<Event>)
    requires |e| == 6 && e[5] == Edited(Some("b"), NO_HISTORY, ALL_DONE)
    requires Run(FRESH, e[..5]) == Published(Up(1, false, false, true))
    ensures !AllUpToDate(FRESH, e)
  {
    hide Run;
    assert !UpToDate(Run(FRESH, e[..5]), e[5]);
  }

  lemma {:induction false} RunSix(e: seq<Event>)
    requires |e| == 6
    ensures Run(FRESH, e[..3]) == Step(Step(Step(FRESH, e[0]), e[1]), e[2])
    ensures Run(FRESH, e[..5]) == Step(Step(Run(FRESH, e[..3]), e[3]), e[4])
    ensures Run(FRESH, e) == Step(Run(FRESH, e[..5]), e[5])
  {
    hide Step;
    RunNext(e, 0);
    RunNext(e, 1);
    RunNext(e, 2);
    RunNext(e, 3);
    RunNext(e, 4);
    RunNext(e, 5);
    assert e[..0] == [] && e[..6] == e;
  }

  lemma {:induction false} RunNext(events: seq<Event>, i: nat)
    requires i < |events|
    ensures Run(FRESH, events[..i + 1]) == Step(Run(FRESH, events[..i]), events[i])
  {
    assert events[..i + 1][..i] == events[..i];
  }

  // ---- The session itself ------------------------------------------------

  /** What is on disk. Every write ends with some fate. */
  class Storage {
    var log: map<nat, Payload>
    var snapshot: Option<Snapshot>
    var pending: Option<Intent>
    ghost var intents: seq<Intent>
    ghost var latest: Option<Snapshot>

    constructor ()
      ensures Contents() == Durable(map[], None, None) && intents == [] && latest == None
    {
      log, snapshot, pending, intents, latest := map[], None, None, [], None;
    }

    ghost function Contents(): Durable
      reads this
    {
      Durable(log, snapshot, pending)
    }

    method StorePending(i: Intent, f: Fate) returns (done: bool)
      modifies this
      ensures done == f.Done?
      ensures TookEffect(f) ==> pending == Some(i) && intents == old(intents) + [i] && latest == Some(i.snapshot)
      ensures !TookEffect(f) ==> pending == old(pending) && intents == old(intents) && latest == old(latest)
      ensures log == old(log) && snapshot == old(snapshot)
    {
      if TookEffect(f) {
        pending, intents, latest := Some(i), intents + [i], Some(i.snapshot);
      }
      done := f.Done?;
    }

    /** A delivery that is already there is accepted again; another payload under
        its sequence, or a gap, is not. */
    method PushDelivery(sequence: nat, payload: Payload, f: Fate) returns (done: bool)
      modifies `log
      ensures done <==> f.Done? && Takes(old(log), sequence, payload)
      ensures log == if TookEffect(f) && Takes(old(log), sequence, payload) then old(log)[sequence := payload] else old(log)
    {
      if sequence == 0 || sequence >= LAST_SEQUENCE { return false; }
      if sequence in log {
        assert log[sequence] == payload ==> log[sequence := payload] == log;
        return f.Done? && log[sequence] == payload;
      }
      if sequence != NextOf(log) { return false; }
      if TookEffect(f) { log := log[sequence := payload]; }
      done := f.Done?;
    }

    method StoreSnapshot(s: Snapshot, f: Fate) returns (done: bool)
      modifies `snapshot
      ensures done == f.Done? && snapshot == if TookEffect(f) then Some(s) else old(snapshot)
    {
      if TookEffect(f) { snapshot := Some(s); }
      done := f.Done?;
    }

    method ClearPending(f: Fate) returns (done: bool)
      modifies `pending
      ensures done == f.Done? && pending == if TookEffect(f) then None else old(pending)
    {
      if TookEffect(f) { pending := None; }
      done := f.Done?;
    }
  }

  class DocumentSession {
    const storage: Storage
    var alive: bool
    var nextEnvelope: nat
    var poisoned: bool
    var blocked: bool
    var complete: bool

    constructor (storage: Storage)
      ensures this.storage == storage && !alive
    {
      this.storage, alive := storage, false;
      nextEnvelope, poisoned, blocked, complete := 1, false, false, true;
    }

    ghost function Now(): State
      reads this, storage
    {
      State(storage.Contents(), if alive then Up(nextEnvelope, poisoned, blocked, complete) else Down, storage.intents, storage.latest)
    }

    /** A write that did not succeed: the process is gone, or the session is poisoned. */
    method Hurts(f: Fate)
      requires alive
      modifies `alive, `poisoned
      ensures if Died(f) then !alive && poisoned == old(poisoned) else alive && poisoned
    {
      if Died(f) { alive := false; } else { poisoned := true; }
    }

    /** Publish an edit already applied in memory: intent, push, history, clear. */
    method PublishLocal(encoded: Option<Payload>, snapshot: Snapshot, f: Fates)
      requires alive && !poisoned && complete
      modifies this, storage
      ensures Now() == Publish(old(Now()), encoded, snapshot, f)
    {
      if nextEnvelope >= LAST_SEQUENCE || encoded.None? {
        poisoned := true;
        return;
      }
      var done := storage.StorePending(Intent(nextEnvelope, encoded.value, snapshot), f.intent);
      if !done { Hurts(f.intent); return; }
      done := storage.PushDelivery(nextEnvelope, encoded.value, f.push);
      if !done { Hurts(f.push); return; }
      nextEnvelope := nextEnvelope + 1;
      done := storage.StoreSnapshot(snapshot, f.save);
      if !done { Hurts(f.save); return; }
      done := storage.ClearPending(f.clear);
      if !done { Hurts(f.clear); }
    }

    /** Finish an intent that is still pending, if this actor may. */
    method ReconcilePending(authorized: bool, f: Fates) returns (ok: bool)
      requires alive
      modifies this, storage
      ensures (Now(), ok) == Reconcile(old(Now()), authorized, f)
    {
      if storage.pending.None? {
        blocked := false;
        return true;
      }
      if !authorized {
        blocked, complete := true, false;
        return true;
      }
      var i := storage.pending.value;
      if i.sequence >= LAST_SEQUENCE { return false; }
      var done := storage.PushDelivery(i.sequence, i.payload, f.push);
      if !done {
        alive := !Died(f.push);
        return false;
      }
      done := storage.StoreSnapshot(i.snapshot, f.save);
      if !done {
        alive := !Died(f.save);
        return false;
      }
      done := storage.ClearPending(f.clear);
      if !done {
        alive := !Died(f.clear);
        return false;
      }
      blocked := false;
      ok := true;
    }

    method UpdateCompleteness(clean: bool)
      requires alive
      modifies `complete
      ensures Now() == Completed(old(Now()), clean)
    {
      complete := clean && !poisoned && !blocked;
    }

    /** Own deliveries up to the `upTo`-th are seen, one after the other. */
    method ReplayOwn(upTo: nat)
      requires alive && upTo <= |storage.log|
      modifies `nextEnvelope
      ensures nextEnvelope == if old(nextEnvelope) > upTo + 1 then old(nextEnvelope) else upTo + 1
    {
      var was := nextEnvelope;
      if nextEnvelope < 1 { nextEnvelope := 1; }
      for sequence := 1 to upTo + 1
        invariant nextEnvelope == if was > sequence then was else sequence
      {
        if nextEnvelope < sequence + 1 { nextEnvelope := sequence + 1; }
      }
    }

    method OpenSession(authorized: bool, clean: bool, f: Fates)
      modifies this, storage
      ensures Now() == Open(old(Now()), authorized, clean, f)
    {
      alive, nextEnvelope, poisoned, blocked, complete := true, 1, false, false, true;
      var ok := ReconcilePending(authorized, f);
      if !ok || !alive {
        alive := false;
        return;
      }
      ReplayOwn(|storage.log|);
      UpdateCompleteness(clean);
    }

    method RecoverSession(authorized: bool, replay: Replay, f: Fates)
      requires alive
      modifies this, storage
      ensures Now() == Recover(old(Now()), authorized, replay, f)
    {
      var ok := ReconcilePending(authorized, f);
      if !ok || !alive { return; }
      match replay {
        case Whole(clean) =>
          ReplayOwn(|storage.log|);
          UpdateCompleteness(clean);
        case Broken(seen) =>
          ReplayOwn(if seen < |storage.log| then seen else |storage.log|);
      }
    }

    /** Save the history after joining groups or acknowledging retirements. */
    method SaveHistory(snapshot: Snapshot, f: Fate)
      requires alive && !poisoned && complete
      modifies this, storage
      ensures Now() == Checkpoint(old(Now()), snapshot, f)
    {
      var done := storage.StoreSnapshot(snapshot, f);
      if TookEffect(f) { storage.latest := Some(snapshot); }
      if !done { Hurts(f); }
    }
  }
}
