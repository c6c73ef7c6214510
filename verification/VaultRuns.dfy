/** What holds of every run of the vault machine, of any length and any interleaving. */
module VaultRuns {
  import opened VaultDisk
  import opened VaultMachine
  import opened VaultSafety

  /** No call under way; the vault is absent or durable; leftover temporary files are allowed. */
  predicate Initial(w: World, s: State) {
    && s.tasks == map[] && s.holder == Free && s.hist == [] && s.acked == {}
    && |s.disk.vault| == 1 && Matches(w, s.disk.vault[0], w.start)
  }

  lemma InitialKeeps(w: World, s: State)
    requires Initial(w, s)
    ensures Inv(w, s) && s.disk.vault != []
  {
  }

  lemma {:induction false} RunKeeps(w: World, s: State, actions: seq<Action>)
    requires Inv(w, s) && s.disk.vault != [] && AllReadable(w, s, actions)
    ensures Inv(w, Run(w, s, actions))
    decreases |actions|
  {
    hide Inv, Next, StatusReadable;
    if actions != [] {
      var front := actions[..|actions| - 1];
      RunKeeps(w, s, front);
      StepKeeps(w, Run(w, s, front), actions[|actions| - 1]);
    }
  }

  // ----- linearizability -----

  /** The plain map after the history is what the visible vault file decrypts to. */
  predicate FileHoldsMap(w: World, s: State)
    requires s.disk.vault != []
  {
    match Visible(s.disk)
    case Missing => Current(w, s.hist) == map[]
    case File(inode) => Open(w.key, inode.content) == Good(Current(w, s.hist))
  }

  /**
   Every run is explained by one sequential history of a plain map: each reply in it is the plain
   map's, the file holds the map it leads to, each call occurs in it at most once, and a call that
   returned an answer occurs in it, with that answer, after the call began.
   */
  lemma Linearizable(w: World, s0: State, actions: seq<Action>)
    requires Initial(w, s0) && AllReadable(w, s0, actions)
    ensures var s := Run(w, s0, actions);
            && Legal(w, s.hist) && FileHoldsMap(w, s)
            && (forall i, j :: 0 <= i < j < |s.hist| && s.hist[i].Done? && s.hist[j].Done? ==> s.hist[i].call != s.hist[j].call)
            && (forall c :: c in s.tasks && s.tasks[c].phase.Returned? && s.tasks[c].phase.outcome.Answer? ==>
                  exists i :: s.tasks[c].since <= i < |s.hist|
                           && s.hist[i] == Done(s.tasks[c].call, s.tasks[c].op, s.tasks[c].phase.outcome.reply))
  {
    InitialKeeps(w, s0);
    RunKeeps(w, s0, actions);
    var s := Run(w, s0, actions);
    VisibleIsCurrent(w, s);
    hide Run, AllReadable, Legal, EntriesMatch, HolderOk, AckedFlushed, Current;
    forall c | c in s.tasks && s.tasks[c].phase.Returned? && s.tasks[c].phase.outcome.Answer?
      ensures exists i :: s.tasks[c].since <= i < |s.hist|
                       && s.hist[i] == Done(s.tasks[c].call, s.tasks[c].op, s.tasks[c].phase.outcome.reply) {
      assert OutcomeRecorded(s, s.tasks[c]);
    }
  }

  /** No two calls are ever between taking and releasing the lock at the same time. */
  lemma {:induction false} MutualExclusion(w: World, s0: State, actions: seq<Action>, c: Client, e: Client)
    requires Initial(w, s0) && AllReadable(w, s0, actions)
    requires var s := Run(w, s0, actions);
             c in s.tasks && e in s.tasks && InSection(s.tasks[c].phase) && InSection(s.tasks[e].phase)
    ensures c == e
  {
    InitialKeeps(w, s0);
    RunKeeps(w, s0, actions);
    hide Run, AllReadable, Legal, EntriesMatch, HolderOk, AckedFlushed, CallsNumbered;
  }

  /** A step adds nothing to the history, or one event of the call that advances. */
  lemma HistoryStep(w: World, s: State, a: Action)
    requires s.disk.vault != [] && !a.PowerLoss?
    ensures var h, h' := s.hist, Next(w, s, a).hist;
            h' == h ||
            (a.Advance? && a.c in s.tasks && |h'| == |h| + 1 && h'[..|h|] == h
             && h'[|h|].Done? && h'[|h|].call == s.tasks[a.c].call && h'[|h|].op == s.tasks[a.c].op
             && (h'[|h|].reply == Stored ==> s.tasks[a.c].phase.Renaming?))
  {
  }

  /** The plain map changes only by the rename of the call that is advancing, or by a power loss. */
  lemma OnlyOwnCommit(w: World, s: State, a: Action)
    requires s.disk.vault != [] && !a.PowerLoss?
    ensures var m, m' := Current(w, s.hist), Current(w, Next(w, s, a).hist);
            m' == m || (a.Advance? && a.c in s.tasks && s.tasks[a.c].phase.Renaming? && m' == Effect(m, s.tasks[a.c].op))
  {
    HistoryStep(w, s, a);
    var h, h' := s.hist, Next(w, s, a).hist;
    if h' != h {
      var e := h'[|h|];
      assert h' == h + [e];
      HistoryGrows(w, h, e);
      ReplayCommit(w.start, Trunk(h), Commit(e.call, e.op));
      hide Next, Trunk, Replay, Effect;
    }
  }

  // ----- real time -----

  /** The call with number `n` was invoked, as `op`, when the history had length `since`. */
  predicate Invoked(s: State, n: nat, op: Op, since: nat) {
    n < s.next && forall c :: c in s.tasks && s.tasks[c].call == n ==> s.tasks[c].op == op && s.tasks[c].since == since
  }

  /** Calls have moved on, no more. */
  predicate SameCalls(s: State, s': State) {
    && s'.next == s.next && s'.tasks.Keys == s.tasks.Keys
    && forall c :: c in s.tasks ==>
         s'.tasks[c].call == s.tasks[c].call && s'.tasks[c].op == s.tasks[c].op && s'.tasks[c].since == s.tasks[c].since
  }

  lemma GotoSame(s: State, t: State, c: Client, phase: Phase)
    requires c in s.tasks && t.tasks == s.tasks && t.next == s.next
    ensures SameCalls(s, Goto(t, c, phase)) && SameCalls(s, s)
  {
  }

  lemma StepSame(w: World, s: State, c: Client, luck: Luck)
    requires c in s.tasks && s.disk.vault != []
    ensures SameCalls(s, Step(w, s, c, luck))
  {
    hide Goto, SameCalls, Open, Respond, Effect, Visible, Forgotten, IfUnlockFails, Image;
    forall t: State, phase: Phase | t.tasks == s.tasks && t.next == s.next ensures SameCalls(s, Goto(t, c, phase)) {
      GotoSame(s, t, c, phase);
    }
    GotoSame(s, s, c, Waiting);
  }

  lemma InvokedStep(w: World, s: State, a: Action, n: nat, op: Op, since: nat)
    requires s.disk.vault != [] && Invoked(s, n, op, since)
    ensures Invoked(Next(w, s, a), n, op, since)
  {
    hide Step;
    if a.Advance? && a.c in s.tasks { StepSame(w, s, a.c, a.luck); }
  }

  lemma HistoryKept(w: World, s: State, a: Action)
    requires s.disk.vault != []
    ensures s.hist <= Next(w, s, a).hist
  {
    if !a.PowerLoss? {
      hide Next;
      HistoryStep(w, s, a);
    }
  }

  lemma {:induction false} InvokedRun(w: World, s: State, actions: seq<Action>, n: nat, op: Op, since: nat)
    requires s.disk.vault != [] && Invoked(s, n, op, since)
    ensures Invoked(Run(w, s, actions), n, op, since)
    decreases |actions|
  {
    hide Next, Invoked;
    if actions != [] {
      var front := actions[..|actions| - 1];
      InvokedRun(w, s, front, n, op, since);
      InvokedStep(w, Run(w, s, front), actions[|actions| - 1], n, op, since);
    }
  }

  lemma {:induction false} HistoryRun(w: World, s: State, actions: seq<Action>)
    requires s.disk.vault != []
    ensures s.hist <= Run(w, s, actions).hist
    decreases |actions|
  {
    hide Next;
    if actions != [] {
      var front := actions[..|actions| - 1];
      HistoryRun(w, s, front);
      HistoryKept(w, Run(w, s, front), actions[|actions| - 1]);
    }
  }

  lemma InvokeIs(w: World, s: State, c: Client, op: Op)
    requires s.disk.vault != [] && CallsNumbered(s) && c !in s.tasks
    ensures var s' := Next(w, s, Invoke(c, op)); s'.hist == s.hist && Invoked(s', s.next, op, |s.hist|)
  {
  }

  /** A call that has returned before another is invoked precedes it in the history. */
  lemma RealTimeOrder(w: World, s0: State, first: seq<Action>, between: seq<Action>, later: seq<Action>, c: Client, e: Client, op: Op)
    returns (i: nat, j: nat)
    requires Initial(w, s0) && AllReadable(w, s0, first) && AllReadable(w, s0, first + between)
    requires AllReadable(w, s0, first + between + ([Invoke(e, op)] + later))
    requires var s := Run(w, s0, first);
             c in s.tasks && s.tasks[c].phase.Returned? && s.tasks[c].phase.outcome.Answer?
    requires var t, t' := Run(w, s0, first + between), Run(w, s0, first + between + ([Invoke(e, op)] + later));
             e !in t.tasks && e in t'.tasks && t'.tasks[e].call == t.next
             && t'.tasks[e].phase.Returned? && t'.tasks[e].phase.outcome.Answer?
    ensures var s, t := Run(w, s0, first), Run(w, s0, first + between);
            var t' := Run(w, s0, first + between + ([Invoke(e, op)] + later));
            && i < j < |t'.hist|
            && t'.hist[i] == Done(s.tasks[c].call, s.tasks[c].op, s.tasks[c].phase.outcome.reply)
            && t'.hist[j] == Done(t.next, op, t'.tasks[e].phase.outcome.reply)
  {
    hide *;
    InitialKeeps(w, s0);
    RunKeeps(w, s0, first + between);
    Linearizable(w, s0, first);
    Linearizable(w, s0, first + between + ([Invoke(e, op)] + later));
    var s, t := Run(w, s0, first), Run(w, s0, first + between);
    var t' := Run(w, s0, first + between + ([Invoke(e, op)] + later));
    RunSplit(w, s0, first, between);
    HistoryRun(w, s, between);
    InvokedAfter(w, t, e, op, later);
    RunSplit(w, s0, first + between, [Invoke(e, op)] + later);
    InvokedTask(t', e, t.next, op, |t.hist|);
    i :| s.tasks[c].since <= i < |s.hist|
         && s.hist[i] == Done(s.tasks[c].call, s.tasks[c].op, s.tasks[c].phase.outcome.reply);
    j :| t'.tasks[e].since <= j < |t'.hist|
         && t'.hist[j] == Done(t'.tasks[e].call, t'.tasks[e].op, t'.tasks[e].phase.outcome.reply);
    assert t'.hist[i] == s.hist[i];
  }

  lemma InvokedAfter(w: World, s: State, e: Client, op: Op, later: seq<Action>)
    requires Inv(w, s) && s.disk.vault != [] && e !in s.tasks
    ensures var s' := Run(w, s, [Invoke(e, op)] + later);
            Invoked(s', s.next, op, |s.hist|) && s.hist <= s'.hist
  {
    hide *;
    InvNumbered(w, s);
    InvokeIs(w, s, e, op);
    OneAction(w, s, Invoke(e, op));
    RunSplit(w, s, [Invoke(e, op)], later);
    InvokedRun(w, Next(w, s, Invoke(e, op)), later, s.next, op, |s.hist|);
    HistoryRun(w, Next(w, s, Invoke(e, op)), later);
  }

  lemma InvNumbered(w: World, s: State)
    requires Inv(w, s)
    ensures CallsNumbered(s)
  {
    InvParts(w, s);
  }

  lemma OneAction(w: World, s: State, a: Action)
    requires s.disk.vault != []
    ensures Run(w, s, [a]) == Next(w, s, a)
  {
    assert [a][..0] == [];
  }

  lemma InvokedTask(s: State, c: Client, n: nat, op: Op, since: nat)
    requires Invoked(s, n, op, since) && c in s.tasks && s.tasks[c].call == n
    ensures s.tasks[c].op == op && s.tasks[c].since == since
  {
  }

  // ----- power loss -----

  lemma PowerLossIs(w: World, s: State, pick: nat, garbage: Content, temps: map<nat, Inode>)
    requires pick < |s.disk.vault|
    ensures var s' := Next(w, s, PowerLoss(pick, garbage, temps));
            && s'.hist == s.hist + [PowerLost(Flushed(s) + pick)] && s'.acked == s.acked
            && s'.disk.vault == [Recovered(s.disk.vault[pick], garbage)]
  {
  }

  lemma CurrentIs(w: World, s: State)
    ensures Current(w, s.hist) == Replay(w.start, Trunk(s.hist))
  {
  }

  /**
   Whatever is found after a power loss: a complete map, the result of the first `n` commits in
   lock order for some `n`, among them every set and delete that had returned success.
   */
  lemma {:induction false} CrashRecovers(w: World, s0: State, actions: seq<Action>, pick: nat, garbage: Content, temps: map<nat, Inode>)
    returns (n: nat)
    requires Initial(w, s0) && AllReadable(w, s0, actions) && pick < |Run(w, s0, actions).disk.vault|
    ensures var s := Run(w, s0, actions);
            var s' := Next(w, s, PowerLoss(pick, garbage, temps));
            && FileHoldsMap(w, s') && n <= |Trunk(s.hist)|
            && Current(w, s'.hist) == Replay(w.start, Trunk(s.hist)[..n])
            && (forall call :: call in s.acked ==> HeldBack(Trunk(s.hist), n, call))
  {
    hide *;
    InitialKeeps(w, s0);
    RunKeeps(w, s0, actions);
    var s := Run(w, s0, actions);
    var s' := Next(w, s, PowerLoss(pick, garbage, temps));
    n := Flushed(s) + pick;
    InvParts(w, s);
    PowerLossIs(w, s, pick, garbage, temps);
    EntriesRecovered(w, s, s', pick, garbage);
    VisibleHolds(w, s');
    CurrentIs(w, s');
    forall call | call in s.acked ensures HeldBack(Trunk(s.hist), n, call) {
      AckedBelow(s, call, n);
    }
  }

  lemma VisibleHolds(w: World, s: State)
    requires EntriesMatch(w, s)
    ensures s.disk.vault != [] && FileHoldsMap(w, s)
  {
    VisibleIsCurrent(w, s);
  }

  lemma AckedBelow(s: State, call: nat, n: nat)
    requires AckedFlushed(s) && call in s.acked && Flushed(s) <= n
    ensures HeldBack(Trunk(s.hist), n, call)
  {
    assert HeldBack(Trunk(s.hist), Flushed(s), call);
  }

  lemma {:induction false} AckedGrows(w: World, s: State, actions: seq<Action>)
    requires s.disk.vault != []
    ensures s.acked <= Run(w, s, actions).acked
    decreases |actions|
  {
    if actions != [] { AckedGrows(w, s, actions[..|actions| - 1]); }
  }

  lemma {:induction false} RunSplit(w: World, s: State, first: seq<Action>, later: seq<Action>)
    requires s.disk.vault != []
    ensures Run(w, s, first + later) == Run(w, Run(w, s, first), later)
    decreases |later|
  {
    hide Next;
    if later == [] {
      assert first + later == first;
    } else {
      assert (first + later)[..|first + later| - 1] == first + later[..|later| - 1];
      RunSplit(w, s, first, later[..|later| - 1]);
    }
  }

  /** A set or delete that returned success is among the commits in force for ever after. */
  lemma {:induction false} SuccessIsForever(w: World, s0: State, first: seq<Action>, later: seq<Action>, c: Client)
    requires Initial(w, s0) && AllReadable(w, s0, first) && AllReadable(w, s0, first + later)
    requires var s := Run(w, s0, first); c in s.tasks && s.tasks[c].phase == Returned(Answer(Stored))
    ensures var call := Run(w, s0, first).tasks[c].call;
            var s' := Run(w, s0, first + later);
            HeldBack(Trunk(s'.hist), |Trunk(s'.hist)|, call)
  {
    InitialKeeps(w, s0);
    RunKeeps(w, s0, first);
    RunKeeps(w, s0, first + later);
    RunSplit(w, s0, first, later);
    AckedGrows(w, Run(w, s0, first), later);
    var s, s' := Run(w, s0, first), Run(w, s0, first + later);
    var call := s.tasks[c].call;
    hide Run, AllReadable, Legal, HolderOk, Trunk, Replay, OutcomeRecorded;
    assert call in s.acked;
    assert HeldBack(Trunk(s'.hist), Flushed(s'), call);
  }

  // ----- exactly the old or the new map -----

  /** No directory sync reported an error, and no process was killed between rename and directory sync. */
  predicate FlushUndisturbed(s: State, a: Action) {
    && (a.Advance? && a.luck.Error? && a.c in s.tasks ==> !s.tasks[a.c].phase.Flushing?)
    && (a.Kill? ==> forall c :: c in s.tasks && c.pid == a.pid ==> !s.tasks[c].phase.Flushing?)
  }

  predicate AllFlushUndisturbed(w: World, s: State, actions: seq<Action>)
    requires s.disk.vault != []
    decreases |actions|
  {
    actions == [] ||
    (AllFlushUndisturbed(w, s, actions[..|actions| - 1]) &&
     FlushUndisturbed(Run(w, s, actions[..|actions| - 1]), actions[|actions| - 1]))
  }

  /** The durable entry lags behind only while a call is between rename and directory sync. */
  predicate FlushedUnlessFlushing(s: State) {
    if s.holder.Held? && s.holder.client in s.tasks && s.tasks[s.holder.client].phase.Flushing?
    then |s.disk.vault| == 2 else |s.disk.vault| == 1
  }

  lemma FlushedStep(w: World, s: State, a: Action)
    requires LockMatches(s) && s.disk.vault != [] && FlushedUnlessFlushing(s) && FlushUndisturbed(s, a)
    ensures FlushedUnlessFlushing(Next(w, s, a))
  {
    hide Trunk, Open, Current, Respond, Effect;
  }

  lemma {:induction false} FlushedRun(w: World, s: State, actions: seq<Action>)
    requires Inv(w, s) && s.disk.vault != [] && FlushedUnlessFlushing(s)
    requires AllReadable(w, s, actions) && AllFlushUndisturbed(w, s, actions)
    ensures FlushedUnlessFlushing(Run(w, s, actions))
    decreases |actions|
  {
    if actions != [] {
      var front := actions[..|actions| - 1];
      RunKeeps(w, s, front);
      InvParts(w, Run(w, s, front));
      FlushedRun(w, s, front);
      hide Inv, Next, StatusReadable, FlushUndisturbed, FlushedUnlessFlushing, LockMatches;
      FlushedStep(w, Run(w, s, front), actions[|actions| - 1]);
    }
  }

  /**
   Then a power loss between any two steps leaves the current map or, only while a call is between
   rename and directory sync, the map before that call.
   */
  lemma {:induction false} OldOrNew(w: World, s0: State, actions: seq<Action>, pick: nat, garbage: Content, temps: map<nat, Inode>)
    requires Initial(w, s0) && AllReadable(w, s0, actions) && AllFlushUndisturbed(w, s0, actions)
    requires pick < |Run(w, s0, actions).disk.vault|
    ensures var s := Run(w, s0, actions);
            var found := Current(w, Next(w, s, PowerLoss(pick, garbage, temps)).hist);
            var t := Trunk(s.hist);
            found == Current(w, s.hist) ||
            (s.holder.Held? && s.holder.client in s.tasks && s.tasks[s.holder.client].phase.Flushing? && t != [] &&
             found == Replay(w.start, t[..|t| - 1]) &&
             t[|t| - 1] == Commit(s.tasks[s.holder.client].call, s.tasks[s.holder.client].op))
  {
    hide *;
    InitialKeeps(w, s0);
    RunKeeps(w, s0, actions);
    InitialFlushed(w, s0);
    FlushedRun(w, s0, actions);
    var s := Run(w, s0, actions);
    var s' := Next(w, s, PowerLoss(pick, garbage, temps));
    InvParts(w, s);
    PowerLossIs(w, s, pick, garbage, temps);
    EntriesRecovered(w, s, s', pick, garbage);
    BeforeOrAfter(w, s, pick);
    CurrentIs(w, s);
    CurrentIs(w, s');
  }

  lemma InitialFlushed(w: World, s: State)
    requires Initial(w, s)
    ensures FlushedUnlessFlushing(s)
  {
  }

  lemma BeforeOrAfter(w: World, s: State, pick: nat)
    requires Inv(w, s) && FlushedUnlessFlushing(s) && pick < |s.disk.vault|
    ensures var t := Trunk(s.hist);
            t[..Flushed(s) + pick] == t ||
            (s.holder.Held? && s.holder.client in s.tasks && s.tasks[s.holder.client].phase.Flushing? && t != [] &&
             t[..Flushed(s) + pick] == t[..|t| - 1] &&
             t[|t| - 1] == Commit(s.tasks[s.holder.client].call, s.tasks[s.holder.client].op))
  {
    assert s.holder.Held? && s.tasks[s.holder.client].phase.Flushing? ==> JustCommitted(s, s.tasks[s.holder.client]);
    hide Legal, Replay, Trunk, Matches, HolderOk, CallsNumbered, AckedFlushed;
    var t := Trunk(s.hist);
    assert t[..|t|] == t;
  }
}
