/** What each step of a session achieves, and exactly when the session can be used
    after it. */
module SessionOutcomes {
  import opened Ids
  import opened SessionPublication

  /** The writes that finish an intent all succeed. */
  predicate Finishes(f: Fates) {
    f.push.Done? && f.save.Done? && f.clear.Done?
  }

  /** A publication whose writes succeed extends the log by just its payload, saves
      the history, leaves nothing pending and changes the session's next sequence
      only. The session can be used afterwards exactly if all writes succeed. */
  lemma {:induction false} PublishCompletes(s: State, payload: Payload, snapshot: Snapshot, f: Fates)
    requires Inv(s) && Ready(s.session) && s.session.next == NextOf(s.disk.log) < LAST_SEQUENCE
    ensures var t := Publish(s, Some(payload), snapshot, f);
            && (Ready(t.session) <==> f.intent.Done? && Finishes(f))
            && (f == ALL_DONE ==>
                  && s.session.next !in s.disk.log
                  && t.disk == Durable(s.disk.log[s.session.next := payload], Some(snapshot), None)
                  && t.session == s.session.(next := s.session.next + 1)
                  && t.intents == s.intents + [Intent(s.session.next, payload, snapshot)] && t.latest == Some(snapshot))
  {
    WritesKeep(s, Intent(s.session.next, payload, snapshot), f);
    NextIsNew(s);
    hide Stored, Numbered;
  }

  lemma {:induction false} NextIsNew(s: State)
    requires Inv(s) && Ready(s.session)
    ensures s.disk.pending.None? && NextOf(s.disk.log) !in s.disk.log
  {
  }

  /** An edit that cannot be encoded, or has no sequence left, poisons the session and
      stores nothing. */
  lemma {:induction false} PublishRefuses(s: State, encoded: Option<Payload>, snapshot: Snapshot, f: Fates)
    requires Ready(s.session) && (encoded.None? || s.session.next >= LAST_SEQUENCE)
    ensures var t := Publish(s, encoded, snapshot, f);
            t.disk == s.disk && t.intents == s.intents && t.latest == s.latest && t.session.Up? && t.session.poisoned
  {
  }

  /** Reconciliation gets through unless it has to write and a write fails. */
  lemma {:induction false} ReconcileCompletes(s: State, authorized: bool, f: Fates)
    requires s.session.Up? && Stored(s)
    ensures var r := Reconcile(s, authorized, f);
            && (r.1 <==> s.disk.pending.None? || !authorized || Finishes(f))
            && (r.1 ==> r.0.session.Up? && (r.0.session.blocked <==> s.disk.pending.Some? && !authorized))
            && (r.1 && !r.0.session.blocked ==> r.0.session == s.session.(blocked := false) && r.0.disk.pending.None?)
            && (s.disk.pending.None? || !authorized ==> r.0.disk == s.disk)
  {
    hide Idle, Intended, Pushed, Kept, Holds, Takes, Numbered, Stored;
    if s.disk.pending.Some? && authorized { FinishKeeps(s, f); }
  }

  /** An opening leaves no session exactly if it has to finish an intent and a write
      fails. Otherwise the session knows the next sequence of the log, and can be
      used exactly if nothing is pending and nothing from anyone is missing. */
  lemma {:induction false} OpenIsReady(s: State, authorized: bool, clean: bool, f: Fates)
    requires Stored(s)
    ensures var t := Open(s, authorized, clean, f);
            && (t.session.Down? <==> s.disk.pending.Some? && authorized && !Finishes(f))
            && (t.session.Up? ==> t.session.next == NextOf(t.disk.log) && !t.session.poisoned
                                  && (t.session.blocked <==> t.disk.pending.Some?))
            && (Ready(t.session) <==> clean && (s.disk.pending.None? || (authorized && Finishes(f))))
  {
    var up := s.(session := Up(1, false, false, true));
    ReconcileCompletes(up, authorized, f);
    ReconcileKeeps(up, authorized, f);
    hide Reconcile, Stored;
  }

  /** A recovery whose replay gets through makes a session usable again unless it is
      poisoned, something is missing, or an intent stays pending. */
  lemma {:induction false} RecoverIsReady(s: State, authorized: bool, clean: bool, f: Fates)
    requires Inv(s) && s.session.Up? && s.session.next <= NextOf(s.disk.log)
    ensures var t := Recover(s, authorized, Whole(clean), f);
            && (s.disk.pending.None? || !authorized || Finishes(f) ==> t.session.Up? && t.session.next == NextOf(t.disk.log))
            && (Ready(t.session) <==>
                  if s.disk.pending.None? || !authorized || Finishes(f)
                  then clean && !s.session.poisoned && (s.disk.pending.None? || authorized)
                  else false)
  {
    ReconcileCompletes(s, authorized, f);
    ReconcileKeeps(s, authorized, f);
    ReconcileExtends(s, authorized, f);
    if s.disk.pending.Some? { NotReadyWhilePending(s); }
    hide Reconcile, Stored;
  }

  /** A recovery whose replay breaks off has raised the next sequence as far as it has
      seen, and says nothing about completeness. */
  lemma {:induction false} RecoveryBreaksOff(s: State, authorized: bool, seen: nat, f: Fates)
    requires Inv(s) && s.session.Up? && (s.disk.pending.None? || !authorized || Finishes(f))
    ensures var t := Recover(s, authorized, Broken(seen), f);
            && t.session.Up? && t.session.poisoned == s.session.poisoned
            && t.session.complete == (s.session.complete && !t.session.blocked)
            && (t.session.blocked <==> s.disk.pending.Some? && !authorized)
            && (seen < |t.disk.log| ==> t.session.next == if s.session.next > seen + 1 then s.session.next else seen + 1)
            && (seen >= |t.disk.log| ==> t.session.next == if s.session.next > NextOf(t.disk.log) then s.session.next else NextOf(t.disk.log))
  {
    ReconcileCompletes(s, authorized, f);
    ReconcileKeeps(s, authorized, f);
    hide Reconcile, Stored;
  }

  lemma {:induction false} NotReadyWhilePending(s: State)
    requires Inv(s) && s.session.Up? && s.disk.pending.Some?
    ensures s.session.poisoned || !s.session.complete
  {
  }

  /** Saving the history changes nothing else. The session stays usable exactly if
      the write succeeds. */
  lemma {:induction false} CheckpointSaves(s: State, snapshot: Snapshot, f: Fate)
    requires Ready(s.session)
    ensures var t := Checkpoint(s, snapshot, f);
            && (Ready(t.session) <==> f.Done?) && (f.Done? ==> t.session == s.session)
            && t.disk == s.disk.(snapshot := if TookEffect(f) then Some(snapshot) else s.disk.snapshot)
            && t.intents == s.intents
  {
  }

  /** A poll makes a session usable exactly if nothing stands against it. */
  lemma {:induction false} PollIsReady(s: State, clean: bool)
    requires s.session.Up?
    ensures Ready(Completed(s, clean).session) <==> clean && !s.session.poisoned && !s.session.blocked
    ensures Completed(s, clean).disk == s.disk && Completed(s, clean).session.next == s.session.next
  {
  }
}
