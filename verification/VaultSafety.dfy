/** The invariant of the vault machine, and what every run of it keeps. */
module VaultSafety {
  import opened VaultDisk
  import opened VaultMachine

  // ----- histories -----

  lemma HistoryGrows(w: World, h: seq<Event>, e: Event)
    ensures (h + [e])[..|h + [e]| - 1] == h && (h + [e])[|h + [e]| - 1] == e
    ensures e.Done? ==> Trunk(h + [e]) == Trunk(h) + (if e.reply == Stored then [Commit(e.call, e.op)] else [])
    ensures e.PowerLost? && e.survivors <= |Trunk(h)| ==> Trunk(h + [e]) == Trunk(h)[..e.survivors]
    ensures Legal(w, h) && e.Done? && e.reply == Respond(Current(w, h), e.op) ==> Legal(w, h + [e])
    ensures Legal(w, h) && e.PowerLost? && e.survivors <= |Trunk(h)| ==> Legal(w, h + [e])
  {
    assert (h + [e])[..|h|] == h;
  }

  lemma ReplayCommit(start: Plain, t: seq<Commit>, c: Commit)
    ensures Replay(start, t + [c]) == Effect(Replay(start, t), c.op)
  {
    assert (t + [c])[..|t|] == t;
  }

  /** The tasks of `s'` are tasks of `s`, none further back and none owing a new answer. */
  predicate TasksMove(s: State, s': State) {
    forall c :: c in s'.tasks ==>
      && c in s.tasks
      && s'.tasks[c] == s.tasks[c].(phase := s'.tasks[c].phase)
      && (Pending(s'.tasks[c].phase) ==> Pending(s.tasks[c].phase))
      && (Owed(s'.tasks[c].phase).Answer? ==> Owed(s'.tasks[c].phase) == Owed(s.tasks[c].phase))
  }

  lemma NumbersKept(s: State, s': State)
    requires CallsNumbered(s) && s'.hist == s.hist && s'.next == s.next && s.acked <= s'.acked && TasksMove(s, s')
    requires forall c :: c in s'.tasks && s'.tasks[c].phase == Returned(Answer(Stored)) && s'.tasks[c].phase != s.tasks[c].phase
               ==> s'.tasks[c].call in s'.acked
    ensures CallsNumbered(s')
  {
    forall e | e in s'.tasks ensures OutcomeRecorded(s', s'.tasks[e]) {
      assert OutcomeRecorded(s, s.tasks[e]);
    }
  }

  // ----- the parts of the invariant, one at a time -----

  lemma InvParts(w: World, s: State)
    requires Inv(w, s)
    ensures Legal(w, s.hist) && EntriesMatch(w, s) && LockMatches(s) && CallsNumbered(s) && AckedFlushed(s)
    ensures s.disk.vault != [] && (s.holder.Held? ==> s.holder.client in s.tasks && HolderOk(w, s, s.holder.client))
    ensures forall c :: c in s.tasks && InSection(s.tasks[c].phase) ==> s.holder == Held(c)
  {
  }

  lemma InvMade(w: World, s: State)
    requires Legal(w, s.hist) && EntriesMatch(w, s) && LockMatches(s) && CallsNumbered(s) && AckedFlushed(s)
    requires s.holder.Held? ==> s.holder.client in s.tasks && s.disk.vault != [] && HolderOk(w, s, s.holder.client)
    ensures Inv(w, s)
  {
  }

  /** Vault entries, commits and acknowledgements alone decide these parts. */
  lemma SameVault(w: World, s: State, s': State)
    requires EntriesMatch(w, s) && AckedFlushed(s)
    requires s'.disk.vault == s.disk.vault && Trunk(s'.hist) == Trunk(s.hist) && s'.acked == s.acked
    ensures EntriesMatch(w, s') && AckedFlushed(s')
  {
    hide Trunk, Matches, Replay;
  }

  lemma SameHolder(w: World, s: State, s': State, c: Client)
    requires c in s.tasks && s.disk.vault != [] && HolderOk(w, s, c)
    requires c in s'.tasks && s'.tasks[c] == s.tasks[c] && s'.disk == s.disk && s'.hist == s.hist
    ensures HolderOk(w, s', c)
  {
    hide Trunk, Current, Open, Respond, Effect;
  }

  /** The holder stays inside its section. */
  lemma KeepsLock(s: State, s': State, c: Client, phase: Phase)
    requires LockMatches(s) && c in s.tasks && s.holder == Held(c) && InSection(phase)
    requires s'.holder == s.holder && s'.tasks == s.tasks[c := s.tasks[c].(phase := phase)]
    ensures LockMatches(s')
  {
  }

  /** Acknowledged commits stay below the flushed mark when the trunk only changes above it. */
  lemma AckedStay(s: State, s': State)
    requires AckedFlushed(s) && s'.acked == s.acked && Flushed(s) <= Flushed(s') <= |Trunk(s'.hist)|
    requires Flushed(s) <= |Trunk(s.hist)| && Trunk(s'.hist)[..Flushed(s)] == Trunk(s.hist)[..Flushed(s)]
    ensures AckedFlushed(s')
  {
    hide Trunk, Flushed;
    var t, t' := Trunk(s.hist), Trunk(s'.hist);
    forall call | call in s'.acked ensures HeldBack(t', Flushed(s'), call) {
      assert HeldBack(t, Flushed(s), call);
      var i :| 0 <= i < Flushed(s) && i < |t| && t[i].call == call;
      assert t'[..Flushed(s)][i] == t[..Flushed(s)][i];
    }
  }

  // ----- steps that touch neither the history nor the vault file -----

  /** The lock holder moves to `phase`, perhaps changing temporary files. */
  lemma QuietStep(w: World, s: State, c: Client, temps: map<nat, Inode>, phase: Phase)
    requires Inv(w, s) && c in s.tasks && s.holder == Held(c)
    requires InSection(phase) && (Pending(phase) ==> Pending(s.tasks[c].phase)) && Owed(phase) == Failed
    requires s.disk.vault != [] && HolderOk(w, Goto(s.(disk := s.disk.(temps := temps)), c, phase), c)
    ensures Inv(w, Goto(s.(disk := s.disk.(temps := temps)), c, phase))
  {
    var s' := Goto(s.(disk := s.disk.(temps := temps)), c, phase);
    hide *;
    InvParts(w, s);
    QuietNumbers(s, s', c, phase);
    GotoIs(s.(disk := s.disk.(temps := temps)), c, phase);
    SameVault(w, s, s');
    KeepsLock(s, s', c, phase);
    InvMade(w, s');
  }

  lemma GotoIs(s: State, c: Client, phase: Phase)
    requires c in s.tasks
    ensures Goto(s, c, phase) == s.(tasks := s.tasks[c := s.tasks[c].(phase := phase)])
  {
  }

  lemma QuietNumbers(s: State, s': State, c: Client, phase: Phase)
    requires CallsNumbered(s) && c in s.tasks && s' == Goto(s, c, phase).(disk := s'.disk)
    requires InSection(phase) && (Pending(phase) ==> Pending(s.tasks[c].phase)) && Owed(phase) == Failed
    ensures CallsNumbered(s')
  {
    hide CallsNumbered;
    NumbersKept(s, s');
  }

  // ----- steps that add to the history -----

  /** Numbering and recorded outcomes survive when the holder's call takes effect. */
  lemma NumbersAfterDone(s: State, c: Client, reply: Reply, disk: Disk, phase: Phase)
    requires CallsNumbered(s) && c in s.tasks && Pending(s.tasks[c].phase) && !Pending(phase)
    requires Owed(phase).Answer? ==> Owed(phase).reply == reply && !phase.Returned?
    ensures CallsNumbered(Goto(Log(s.(disk := disk), c, reply), c, phase))
  {
    var s' := Goto(Log(s.(disk := disk), c, reply), c, phase);
    var n := |s.hist|;
    assert s'.hist[n] == Done(s.tasks[c].call, s.tasks[c].op, reply);
    assert forall i :: 0 <= i < n ==> s'.hist[i] == s.hist[i];
    forall e | e in s'.tasks ensures OutcomeRecorded(s', s'.tasks[e]) {
      assert OutcomeRecorded(s, s.tasks[e]);
      if e != c && Owed(s.tasks[e].phase).Answer? {
        var i :| s.tasks[e].since <= i < n && s.hist[i] == Done(s.tasks[e].call, s.tasks[e].op, Owed(s.tasks[e].phase).reply);
        assert s'.hist[i] == s.hist[i];
      }
    }
  }

  /** A call answers without changing the vault. */
  lemma AnswerStep(w: World, s: State, c: Client, reply: Reply)
    requires Inv(w, s) && c in s.tasks && s.holder == Held(c) && Pending(s.tasks[c].phase)
    requires reply == Respond(Current(w, s.hist), s.tasks[c].op) && reply != Stored
    ensures Inv(w, Goto(Log(s, c, reply), c, Unlocking(Answer(reply))))
  {
    var phase := Unlocking(Answer(reply));
    var s' := Goto(Log(s, c, reply), c, phase);
    assert s' == Goto(Log(s.(disk := s.disk), c, reply), c, phase) && !Pending(phase) && InSection(phase);
    assert Owed(phase) == Answer(reply) && s'.hist == s.hist + [Done(s.tasks[c].call, s.tasks[c].op, reply)];
    assert s'.tasks == s.tasks[c := s.tasks[c].(phase := phase)] && s'.holder == s.holder && s'.acked == s.acked;
    assert s'.disk == s.disk;
    hide *;
    InvParts(w, s);
    NumbersAfterDone(s, c, reply, s.disk, phase);
    HistoryGrows(w, s.hist, Done(s.tasks[c].call, s.tasks[c].op, reply));
    assert Trunk(s'.hist) == Trunk(s.hist);
    SameVault(w, s, s');
    KeepsLock(s, s', c, phase);
    AnswerHolds(w, s', c, reply);
    InvMade(w, s');
  }

  lemma AnswerHolds(w: World, s: State, c: Client, reply: Reply)
    requires c in s.tasks && s.disk.vault != [] && s.tasks[c].phase == Unlocking(Answer(reply)) && reply != Stored
    ensures HolderOk(w, s, c)
  {
  }

  /** The rename: the commit joins the trunk as the new image becomes visible. */
  lemma CommitStep(w: World, s: State, c: Client)
    requires Inv(w, s) && c in s.tasks && s.holder == Held(c) && s.tasks[c].phase.Renaming? && c.pid in s.disk.temps
    ensures Inv(w, Goto(Log(s.(disk := RenameTemp(s.disk, c.pid)), c, Stored), c, Flushing))
  {
    var task, d := s.tasks[c], RenameTemp(s.disk, c.pid);
    var s' := Goto(Log(s.(disk := d), c, Stored), c, Flushing);
    var commit := Commit(task.call, task.op);
    assert !Pending(Flushing) && InSection(Flushing) && Owed(Flushing) == Answer(Stored) && Pending(task.phase);
    assert s'.hist == s.hist + [Done(task.call, task.op, Stored)] && s'.disk == d && d.vault != [];
    assert s'.tasks == s.tasks[c := task.(phase := Flushing)] && s'.holder == s.holder && s'.acked == s.acked;
    assert d.vault == s.disk.vault + [File(s.disk.temps[c.pid])];
    hide *;
    InvParts(w, s);
    NumbersAfterDone(s, c, Stored, d, Flushing);
    RenamedHolds(w, s, c);
    HistoryGrows(w, s.hist, Done(task.call, task.op, Stored));
    assert Trunk(s'.hist) == Trunk(s.hist) + [commit];
    EntriesGrow(w, s, s', commit, File(s.disk.temps[c.pid]));
    KeepsLock(s, s', c, Flushing);
    CommittedHolds(w, s', c);
    InvMade(w, s');
  }

  /** What is about to be renamed is the map after the call, durable in contents. */
  lemma RenamedHolds(w: World, s: State, c: Client)
    requires c in s.tasks && s.disk.vault != [] && HolderOk(w, s, c) && s.tasks[c].phase.Renaming?
    ensures Respond(Current(w, s.hist), s.tasks[c].op) == Stored && c.pid in s.disk.temps
    ensures Matches(w, File(s.disk.temps[c.pid]), Effect(Current(w, s.hist), s.tasks[c].op))
  {
  }

  lemma CommittedHolds(w: World, s: State, c: Client)
    requires c in s.tasks && s.disk.vault != [] && s.tasks[c].phase == Flushing
    requires Trunk(s.hist) != [] && Trunk(s.hist)[|Trunk(s.hist)| - 1] == Commit(s.tasks[c].call, s.tasks[c].op)
    ensures HolderOk(w, s, c)
  {
  }

  /** A new visible entry for the trunk with one more commit. */
  lemma EntriesGrow(w: World, s: State, s': State, commit: Commit, e: Entry)
    requires EntriesMatch(w, s) && AckedFlushed(s) && s'.acked == s.acked
    requires Trunk(s'.hist) == Trunk(s.hist) + [commit] && s'.disk.vault == s.disk.vault + [e]
    requires Matches(w, e, Effect(Current(w, s.hist), commit.op))
    ensures EntriesMatch(w, s') && AckedFlushed(s')
  {
    var t, t' := Trunk(s.hist), Trunk(s'.hist);
    ReplayCommit(w.start, t, commit);
    assert Matches(w, e, Replay(w.start, t'));
    hide Matches, Replay, Trunk, Effect;
    assert Flushed(s') == Flushed(s);
    forall i | 0 <= i < |s'.disk.vault| ensures Matches(w, s'.disk.vault[i], Replay(w.start, t'[..Flushed(s') + i])) {
      if i < |s.disk.vault| {
        assert t'[..Flushed(s) + i] == t[..Flushed(s) + i];
      } else {
        assert t'[..Flushed(s) + i] == t';
      }
    }
    AckedStay(s, s');
  }

  // ----- directory sync -----

  lemma FlushStep(w: World, s: State, c: Client, k: nat, phase: Phase)
    requires Inv(w, s) && c in s.tasks && s.holder == Held(c) && s.tasks[c].phase.Flushing?
    requires k < |s.disk.vault|
    requires phase == Cleaning || (phase == Unlocking(Answer(Stored)) && k == |s.disk.vault| - 1)
    ensures Inv(w, Goto(s.(disk := SyncDirectory(s.disk, k)), c, phase))
  {
    var s' := Goto(s.(disk := SyncDirectory(s.disk, k)), c, phase);
    assert s'.disk.vault == s.disk.vault[k..] && s'.hist == s.hist && s'.acked == s.acked && InSection(phase);
    assert s'.tasks == s.tasks[c := s.tasks[c].(phase := phase)] && s'.holder == s.holder;
    hide *;
    InvParts(w, s);
    FlushNumbers(s, s', c, phase);
    EntriesSynced(w, s, s', k);
    KeepsLock(s, s', c, phase);
    FlushedHolds(w, s, s', c);
    InvMade(w, s');
  }

  lemma FlushNumbers(s: State, s': State, c: Client, phase: Phase)
    requires CallsNumbered(s) && c in s.tasks && s.tasks[c].phase.Flushing? && s' == Goto(s, c, phase).(disk := s'.disk)
    requires phase == Cleaning || phase == Unlocking(Answer(Stored))
    ensures CallsNumbered(s')
  {
    hide CallsNumbered;
    NumbersKept(s, s');
  }

  lemma EntriesSynced(w: World, s: State, s': State, k: nat)
    requires EntriesMatch(w, s) && AckedFlushed(s) && k < |s.disk.vault|
    requires s'.hist == s.hist && s'.acked == s.acked && s'.disk.vault == s.disk.vault[k..]
    ensures EntriesMatch(w, s') && AckedFlushed(s')
  {
    hide Matches, Replay, Trunk;
    var t := Trunk(s.hist);
    assert Flushed(s') == Flushed(s) + k;
    forall i | 0 <= i < |s'.disk.vault| ensures Matches(w, s'.disk.vault[i], Replay(w.start, t[..Flushed(s') + i])) {
      assert s'.disk.vault[i] == s.disk.vault[k + i];
    }
    AckedStay(s, s');
  }

  lemma FlushedHolds(w: World, s: State, s': State, c: Client)
    requires c in s.tasks && s.disk.vault != [] && HolderOk(w, s, c) && s.tasks[c].phase.Flushing?
    requires c in s'.tasks && s'.disk.vault != [] && s'.tasks[c] == s.tasks[c].(phase := s'.tasks[c].phase) && s'.hist == s.hist
    requires s'.tasks[c].phase == Cleaning || (s'.tasks[c].phase == Unlocking(Answer(Stored)) && |s'.disk.vault| == 1)
    ensures HolderOk(w, s', c)
  {
    hide Trunk, Current, Open, Respond, Effect;
  }

  // ----- lock, unlock, and the coming and going of calls -----

  /** Releasing the lock; success is acknowledged only for what the directory sync made durable. */
  lemma UnlockStep(w: World, s: State, c: Client, outcome: Outcome, acked: set<nat>)
    requires Inv(w, s) && c in s.tasks && s.tasks[c].phase.Unlocking?
    requires outcome == Failed || outcome == s.tasks[c].phase.outcome
    requires outcome == Answer(Stored) ==> s.tasks[c].call in acked
    requires acked == s.acked || (acked == s.acked + {s.tasks[c].call} && s.tasks[c].phase.outcome == Answer(Stored))
    ensures Inv(w, Goto(s.(holder := Free, acked := acked), c, Returned(outcome)))
  {
    var s' := Goto(s.(holder := Free, acked := acked), c, Returned(outcome));
    assert s'.hist == s.hist && s'.disk == s.disk && s'.acked == acked && s'.holder == Free;
    assert InSection(s.tasks[c].phase);
    hide *;
    InvParts(w, s);
    UnlockNumbers(s, s', c, outcome);
    UnlockAcked(w, s, s', c);
    Unlocks(s, s', c, outcome);
    InvMade(w, s');
  }

  lemma UnlockNumbers(s: State, s': State, c: Client, outcome: Outcome)
    requires CallsNumbered(s) && c in s.tasks && s.tasks[c].phase.Unlocking? && s.acked <= s'.acked
    requires outcome == Failed || outcome == s.tasks[c].phase.outcome
    requires outcome == Answer(Stored) ==> s.tasks[c].call in s'.acked
    requires s' == Goto(s.(holder := Free, acked := s'.acked), c, Returned(outcome))
    ensures CallsNumbered(s')
  {
    hide CallsNumbered;
    NumbersKept(s, s');
  }

  lemma UnlockAcked(w: World, s: State, s': State, c: Client)
    requires EntriesMatch(w, s) && AckedFlushed(s) && c in s.tasks && s.tasks[c].phase.Unlocking? && HolderOk(w, s, c)
    requires s'.hist == s.hist && s'.disk == s.disk
    requires s'.acked == s.acked || (s'.acked == s.acked + {s.tasks[c].call} && s.tasks[c].phase.outcome == Answer(Stored))
    ensures EntriesMatch(w, s') && AckedFlushed(s')
  {
    hide Matches, Replay, Trunk;
    var t := Trunk(s.hist);
    forall call | call in s'.acked ensures HeldBack(t, Flushed(s'), call) {
      if call in s.acked {
        assert HeldBack(t, Flushed(s), call);
      } else {
        assert t[|t| - 1].call == call;
      }
    }
  }

  lemma Unlocks(s: State, s': State, c: Client, outcome: Outcome)
    requires LockMatches(s) && c in s.tasks && s.holder == Held(c)
    requires s' == Goto(s.(holder := Free, acked := s'.acked), c, Returned(outcome))
    ensures LockMatches(s')
  {
  }

  lemma GiveUpWaiting(w: World, s: State, c: Client)
    requires Inv(w, s) && c in s.tasks && s.tasks[c].phase.Waiting?
    ensures Inv(w, Goto(s, c, Returned(Failed)))
  {
    var s' := Goto(s, c, Returned(Failed));
    NumbersKept(s, s');
    SameVault(w, s, s');
    if s.holder.Held? { SameHolder(w, s, s', s.holder.client); }
    hide Legal, EntriesMatch, AckedFlushed, HolderOk, CallsNumbered;
  }

  lemma TakeLock(w: World, s: State, c: Client)
    requires Inv(w, s) && c in s.tasks && s.tasks[c].phase.Waiting? && s.holder == Free
    ensures Inv(w, Goto(s.(holder := Held(c)), c, Looking))
  {
    var s' := Goto(s.(holder := Held(c)), c, Looking);
    assert s'.disk == s.disk && s'.hist == s.hist && s'.acked == s.acked;
    assert LockMatches(s') && HolderOk(w, s', c) && s'.holder == Held(c) && c in s'.tasks;
    assert TasksMove(s, s');
    hide *;
    InvParts(w, s);
    NumbersKept(s, s');
    SameVault(w, s, s');
    InvMade(w, s');
  }

  lemma InvokeStep(w: World, s: State, c: Client, op: Op)
    requires Inv(w, s) && c !in s.tasks
    ensures Inv(w, Next(w, s, Invoke(c, op)))
  {
    var s' := Next(w, s, Invoke(c, op));
    NumbersInvoked(w, s, c, op);
    SameVault(w, s, s');
    if s.holder.Held? { SameHolder(w, s, s', s.holder.client); }
    hide Legal, EntriesMatch, AckedFlushed, HolderOk, CallsNumbered;
  }

  lemma NumbersInvoked(w: World, s: State, c: Client, op: Op)
    requires CallsNumbered(s) && c !in s.tasks && s.disk.vault != []
    ensures CallsNumbered(Next(w, s, Invoke(c, op)))
  {
    var s' := Next(w, s, Invoke(c, op));
    forall e | e in s'.tasks ensures OutcomeRecorded(s', s'.tasks[e]) {
      if e != c { assert OutcomeRecorded(s, s.tasks[e]); }
    }
  }

  /** Calls that vanish, with the lock if one of them held it. */
  lemma VanishStep(w: World, s: State, tasks: map<Client, Task>, holder: Holder)
    requires Inv(w, s) && tasks.Keys <= s.tasks.Keys && forall c :: c in tasks ==> tasks[c] == s.tasks[c]
    requires if s.holder.Held? && s.holder.client !in tasks then holder == Free else holder == s.holder
    ensures Inv(w, s.(tasks := tasks, holder := holder))
  {
    var s' := s.(tasks := tasks, holder := holder);
    NumbersKept(s, s');
    hide CallsNumbered, OutcomeRecorded, Pending, Owed;
    SameVault(w, s, s');
    if s'.holder.Held? { SameHolder(w, s, s', s.holder.client); }
    hide Legal, EntriesMatch, AckedFlushed, HolderOk;
  }

  lemma PowerLossStep(w: World, s: State, a: Action)
    requires Inv(w, s) && a.PowerLoss?
    ensures Inv(w, Next(w, s, a))
  {
    if a.pick < |s.disk.vault| {
      var s', n := Next(w, s, a), Flushed(s) + a.pick;
      assert s'.hist == s.hist + [PowerLost(n)] && s'.acked == s.acked && s'.tasks == map[] && s'.holder == Free;
      assert s'.disk.vault == [Recovered(s.disk.vault[a.pick], a.garbage)];
      CrashNumbers(s, s', n);
      assert LockMatches(s');
      hide *;
      InvParts(w, s);
      EntriesRecovered(w, s, s', a.pick, a.garbage);
      InvMade(w, s');
    }
  }

  lemma CrashNumbers(s: State, s': State, n: nat)
    requires CallsNumbered(s) && s'.hist == s.hist + [PowerLost(n)] && s'.next == s.next && s'.tasks == map[]
    ensures CallsNumbered(s')
  {
  }

  lemma EntriesRecovered(w: World, s: State, s': State, pick: nat, garbage: Content)
    requires Legal(w, s.hist) && EntriesMatch(w, s) && AckedFlushed(s) && s'.acked == s.acked && pick < |s.disk.vault|
    requires s'.hist == s.hist + [PowerLost(Flushed(s) + pick)]
    requires s'.disk.vault == [Recovered(s.disk.vault[pick], garbage)]
    ensures Legal(w, s'.hist) && EntriesMatch(w, s') && AckedFlushed(s')
    ensures Trunk(s'.hist) == Trunk(s.hist)[..Flushed(s) + pick] && Flushed(s) + pick <= |Trunk(s.hist)|
  {
    var t, n := Trunk(s.hist), Flushed(s) + pick;
    var e := Recovered(s.disk.vault[pick], garbage);
    HistoryGrows(w, s.hist, PowerLost(n));
    assert n <= |t| && Matches(w, s.disk.vault[pick], Replay(w.start, t[..n]));
    hide *;
    var t' := Trunk(s'.hist);
    RecoveredMatches(w, s.disk.vault[pick], garbage, Replay(w.start, t[..n]));
    OneEntry(w, s', e);
    assert t'[..Flushed(s)] == t[..Flushed(s)];
    assert t'[..|t'|] == t';
    AckedStay(s, s');
  }

  /** Synced contents are recovered as they were. */
  lemma RecoveredMatches(w: World, e: Entry, garbage: Content, m: Plain)
    requires Matches(w, e, m)
    ensures Matches(w, Recovered(e, garbage), m)
  {
  }

  lemma OneEntry(w: World, s: State, e: Entry)
    requires s.disk.vault == [e] && Matches(w, e, Replay(w.start, Trunk(s.hist)))
    ensures EntriesMatch(w, s) && Flushed(s) == |Trunk(s.hist)|
  {
    hide Trunk, Replay, Matches;
    assert Trunk(s.hist)[..|Trunk(s.hist)|] == Trunk(s.hist);
  }

  // ----- every step -----

  /** A load that produced the right map answers rightly or goes on to save the right map. */
  lemma LoadedStep(w: World, s: State, c: Client, plain: Plain)
    requires Inv(w, s) && c in s.tasks && s.holder == Held(c) && Pending(s.tasks[c].phase)
    requires var m, op := Current(w, s.hist), s.tasks[c].op;
             Respond(plain, op) == Respond(m, op) && (Respond(m, op) == Stored ==> Effect(plain, op) == Effect(m, op))
    ensures Inv(w, Loaded(s, c, plain))
  {
    var op := s.tasks[c].op;
    if op.Get? || (op.Delete? && op.id !in plain) {
      AnswerStep(w, s, c, Respond(plain, op));
    } else {
      QuietStep(w, s, c, s.disk.temps, Sealing(Effect(plain, op)));
      assert s.disk == s.disk.(temps := s.disk.temps);
    }
  }

  lemma LookStep(w: World, s: State, c: Client, luck: Luck)
    requires Inv(w, s) && c in s.tasks && s.tasks[c].phase.Looking? && StatusReadable(w, s, Advance(c, luck))
    ensures Inv(w, Step(w, s, c, luck))
  {
    var m := Current(w, s.hist);
    assert s.holder == Held(c);
    if luck.Error? || Visible(s.disk) == Missing {
      HarmlessExactly(m, s.tasks[c].op);
      if Visible(s.disk) == Missing { VisibleIsCurrent(w, s); }
      LoadedStep(w, s, c, map[]);
    } else {
      QuietStep(w, s, c, s.disk.temps, Reading);
    }
  }

  /** The visible entry holds the plain map of the whole history. */
  lemma VisibleIsCurrent(w: World, s: State)
    requires EntriesMatch(w, s)
    ensures Matches(w, Visible(s.disk), Current(w, s.hist))
  {
    var t, n := Trunk(s.hist), |s.disk.vault|;
    assert Matches(w, s.disk.vault[n - 1], Replay(w.start, t[..Flushed(s) + (n - 1)]));
    assert t[..|t|] == t;
  }

  lemma ReadStep(w: World, s: State, c: Client, luck: Luck)
    requires Inv(w, s) && c in s.tasks && (s.tasks[c].phase.Reading? || s.tasks[c].phase.Sealing?)
    ensures Inv(w, Step(w, s, c, luck))
  {
    var d := s.disk;
    assert s.holder == Held(c) && d.(temps := d.temps) == d;
    hide Legal, EntriesMatch, LockMatches, AckedFlushed, CallsNumbered, Current, Respond, Effect;
    if luck.Error? {
      QuietStep(w, s, c, d.temps, Unlocking(Failed));
    } else if s.tasks[c].phase.Reading? {
      QuietStep(w, s, c, d.temps, Opening(Visible(d).inode.content));
    } else {
      QuietStep(w, s, c, d.temps, Creating(Image(w.key, luck.nonce, s.tasks[c].phase.plain)));
    }
  }

  lemma OpenStep(w: World, s: State, c: Client, luck: Luck)
    requires Inv(w, s) && c in s.tasks && s.tasks[c].phase.Opening?
    ensures Inv(w, Step(w, s, c, luck))
  {
    var d, raw := s.disk, s.tasks[c].phase.raw;
    assert s.holder == Held(c) && d.(temps := d.temps) == d;
    VisibleIsCurrent(w, s);
    hide Legal, EntriesMatch, LockMatches, AckedFlushed, CallsNumbered, Current, Open, Respond, Effect;
    if luck.Error? || Open(w.key, raw) == Bad {
      QuietStep(w, s, c, d.temps, Unlocking(Failed));
    } else {
      LoadedStep(w, s, c, Open(w.key, raw).plain);
    }
  }

  lemma HolderKnows(w: World, s: State, c: Client)
    requires Inv(w, s) && c in s.tasks && InSection(s.tasks[c].phase)
    ensures s.holder == Held(c) && s.disk.vault != [] && HolderOk(w, s, c)
  {
  }

  lemma CreateStep(w: World, s: State, c: Client, luck: Luck)
    requires Inv(w, s) && c in s.tasks && s.tasks[c].phase.Creating?
    ensures Inv(w, Step(w, s, c, luck))
  {
    hide Inv, Current, Respond, Effect, Open;
    HolderKnows(w, s, c);
    var d := s.disk;
    assert d.(temps := d.temps) == d;
    if luck.Error? || c.pid in d.temps {
      QuietStep(w, s, c, d.temps, Cleaning);
    } else {
      QuietStep(w, s, c, CreateTemp(d, c.pid).temps, Writing(s.tasks[c].phase.image, 0));
    }
  }

  lemma WriteStep(w: World, s: State, c: Client, luck: Luck)
    requires Inv(w, s) && c in s.tasks && s.tasks[c].phase.Writing?
    ensures Inv(w, Step(w, s, c, luck))
  {
    hide Inv, Current, Respond, Effect, Open;
    HolderKnows(w, s, c);
    var d, image, done := s.disk, s.tasks[c].phase.image, s.tasks[c].phase.done;
    if luck.Error? {
      QuietStep(w, s, c, (if luck.torn then Append(d, c.pid, Torn) else d).temps, Cleaning);
    } else {
      assert image[..done] + [image[done]] == image[..done + 1];
      assert image[..3] == image;
      QuietStep(w, s, c, Append(d, c.pid, image[done]).temps, if done + 1 < 3 then Writing(image, done + 1) else Syncing(image));
    }
  }

  lemma SyncStep(w: World, s: State, c: Client, luck: Luck)
    requires Inv(w, s) && c in s.tasks && s.tasks[c].phase.Syncing?
    ensures Inv(w, Step(w, s, c, luck))
  {
    hide Inv, Current, Respond, Effect, Open;
    HolderKnows(w, s, c);
    var d := s.disk;
    assert d.(temps := d.temps) == d;
    if luck.Error? {
      QuietStep(w, s, c, d.temps, Cleaning);
    } else {
      QuietStep(w, s, c, SyncTemp(d, c.pid).temps, Renaming(s.tasks[c].phase.image));
    }
  }

  lemma CleanStep(w: World, s: State, c: Client, luck: Luck)
    requires Inv(w, s) && c in s.tasks && s.tasks[c].phase.Cleaning?
    ensures Inv(w, Step(w, s, c, luck))
  {
    var temps := if luck.Error? then s.disk.temps else s.disk.temps - {c.pid};
    assert s.holder == Held(c) && s.disk.(temps := s.disk.temps) == s.disk;
    assert Step(w, s, c, luck) == Goto(s.(disk := s.disk.(temps := temps)), c, Unlocking(Failed));
    hide Inv;
    QuietStep(w, s, c, temps, Unlocking(Failed));
  }

  lemma RenameStep(w: World, s: State, c: Client, luck: Luck)
    requires Inv(w, s) && c in s.tasks && s.tasks[c].phase.Renaming?
    ensures Inv(w, Step(w, s, c, luck))
  {
    hide Inv, Current, Respond, Effect, Open;
    HolderKnows(w, s, c);
    assert s.disk.(temps := s.disk.temps) == s.disk;
    if luck.Error? { QuietStep(w, s, c, s.disk.temps, Cleaning); } else { CommitStep(w, s, c); }
  }

  lemma FlushingStep(w: World, s: State, c: Client, luck: Luck)
    requires Inv(w, s) && c in s.tasks && s.tasks[c].phase.Flushing?
    ensures Inv(w, Step(w, s, c, luck))
  {
    hide Inv, Goto, SyncDirectory, Current, Respond, Effect, Open;
    HolderKnows(w, s, c);
    if luck.Error? { FlushStep(w, s, c, Forgotten(s.disk, luck), Cleaning); }
    else { FlushStep(w, s, c, |s.disk.vault| - 1, Unlocking(Answer(Stored))); }
  }

  lemma UnlockingStep(w: World, s: State, c: Client, luck: Luck)
    requires Inv(w, s) && c in s.tasks && s.tasks[c].phase.Unlocking?
    ensures Inv(w, Step(w, s, c, luck))
  {
    var acked := if s.tasks[c].phase.outcome == Answer(Stored) then s.acked + {s.tasks[c].call} else s.acked;
    UnlockIs(w, s, c, luck, acked);
    UnlockFailure(s.tasks[c].phase.outcome);
    hide *;
    UnlockStep(w, s, c, IfUnlockFails(s.tasks[c].phase.outcome), s.acked);
    UnlockStep(w, s, c, s.tasks[c].phase.outcome, acked);
  }

  lemma UnlockFailure(outcome: Outcome)
    ensures IfUnlockFails(outcome) == Failed || IfUnlockFails(outcome) == outcome
    ensures IfUnlockFails(outcome) != Answer(Stored)
  {
  }

  lemma UnlockIs(w: World, s: State, c: Client, luck: Luck, acked: set<nat>)
    requires c in s.tasks && s.tasks[c].phase.Unlocking? && s.disk.vault != []
    requires acked == if s.tasks[c].phase.outcome == Answer(Stored) then s.acked + {s.tasks[c].call} else s.acked
    ensures Step(w, s, c, luck) == if luck.Error?
      then Goto(s.(holder := Free, acked := s.acked), c, Returned(IfUnlockFails(s.tasks[c].phase.outcome)))
      else Goto(s.(holder := Free, acked := acked), c, Returned(s.tasks[c].phase.outcome))
  {
  }

  lemma LockStep(w: World, s: State, c: Client, luck: Luck)
    requires Inv(w, s) && c in s.tasks && (s.tasks[c].phase.Waiting? || s.tasks[c].phase.Returned?)
    ensures Inv(w, Step(w, s, c, luck))
  {
    if s.tasks[c].phase.Waiting? {
      if luck.Error? { GiveUpWaiting(w, s, c); } else if s.holder == Free { TakeLock(w, s, c); }
    }
  }

  /** Every step of every client, with every kind of luck, keeps the invariant. */
  lemma StepKeeps(w: World, s: State, a: Action)
    requires Inv(w, s) && StatusReadable(w, s, a)
    ensures Inv(w, Next(w, s, a))
  {
    match a
    case Invoke(c, op) => if c !in s.tasks { InvokeStep(w, s, c, op); }
    case Collect(c) =>
      if c in s.tasks && s.tasks[c].phase.Returned? { VanishStep(w, s, s.tasks - {c}, s.holder); }
    case Kill(pid) => VanishStep(w, s, Next(w, s, a).tasks, Next(w, s, a).holder);
    case PowerLoss(_, _, _) => PowerLossStep(w, s, a);
    case Advance(c, luck) =>
      if c in s.tasks {
        AdvanceKeeps(w, s, c, luck);
      }
  }

  lemma AdvanceKeeps(w: World, s: State, c: Client, luck: Luck)
    requires Inv(w, s) && c in s.tasks && StatusReadable(w, s, Advance(c, luck))
    ensures Inv(w, Step(w, s, c, luck))
  {
    hide *;
    match s.tasks[c].phase
    case Waiting => LockStep(w, s, c, luck);
    case Looking => LookStep(w, s, c, luck);
    case Reading => ReadStep(w, s, c, luck);
    case Opening(_) => OpenStep(w, s, c, luck);
    case Sealing(_) => ReadStep(w, s, c, luck);
    case Creating(_) => CreateStep(w, s, c, luck);
    case Writing(_, _) => WriteStep(w, s, c, luck);
    case Syncing(_) => SyncStep(w, s, c, luck);
    case Renaming(_) => RenameStep(w, s, c, luck);
    case Flushing => FlushingStep(w, s, c, luck);
    case Cleaning => CleanStep(w, s, c, luck);
    case Unlocking(_) => UnlockingStep(w, s, c, luck);
    case Returned(_) => LockStep(w, s, c, luck);
  }
}
