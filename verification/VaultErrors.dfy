/** What a call that returned an error has left behind: its whole effect, or nothing, and when which. */
module VaultErrors {
  import opened VaultDisk
  import opened VaultMachine
  import opened VaultSafety
  import opened VaultRuns

  /** The call's change is among the commits in force. */
  predicate InForce(h: seq<Event>, call: nat) {
    HeldBack(Trunk(h), |Trunk(h)|, call)
  }

  /** After its rename, the call meets an error at the directory sync or at the unlock. */
  predicate LateErrorAt(s: State, a: Action, call: nat) {
    && a.Advance? && a.luck.Error? && a.c in s.tasks && s.tasks[a.c].call == call
    && (s.tasks[a.c].phase.Flushing? || s.tasks[a.c].phase == Unlocking(Answer(Stored)))
  }

  predicate LateError(w: World, s: State, actions: seq<Action>, call: nat)
    requires s.disk.vault != []
    decreases |actions|
  {
    actions != [] &&
    (LateError(w, s, actions[..|actions| - 1], call) ||
     LateErrorAt(Run(w, s, actions[..|actions| - 1]), actions[|actions| - 1], call))
  }

  predicate Succeeding(phase: Phase) {
    Owed(phase) == Answer(Stored)
  }

  predicate Failing(phase: Phase) {
    phase == Cleaning || phase == Unlocking(Failed) || phase == Returned(Failed)
  }

  /** A call's change is in force exactly if it is bound to succeed or has met a late error. */
  predicate Fate(h: seq<Event>, task: Task, late: bool) {
    && (InForce(h, task.call) <==> Succeeding(task.phase) || late)
    && (late ==> Failing(task.phase))
  }

  lemma NextIsStep(w: World, s: State, c: Client, luck: Luck)
    requires s.disk.vault != [] && c in s.tasks
    ensures Next(w, s, Advance(c, luck)) == Step(w, s, c, luck)
  {
  }

  /** Where a call goes from each of its last phases. */
  function AfterLate(phase: Phase, luck: Luck): Phase {
    match phase
    case Flushing => if luck.Fine? then Unlocking(Answer(Stored)) else Cleaning
    case Cleaning => Unlocking(Failed)
    case Unlocking(outcome) => Returned(if luck.Fine? then outcome else IfUnlockFails(outcome))
    case _ => phase
  }

  lemma LateStep(w: World, s: State, c: Client, luck: Luck)
    requires s.disk.vault != [] && c in s.tasks
    requires var phase := s.tasks[c].phase; phase.Flushing? || phase.Cleaning? || phase.Unlocking? || phase.Returned?
    ensures var s' := Next(w, s, Advance(c, luck));
            && c in s'.tasks && s'.tasks[c] == s.tasks[c].(phase := AfterLate(s.tasks[c].phase, luck)) && s'.hist == s.hist
            && StatusReadable(w, s, Advance(c, luck))
  {
    hide Trunk, Open, Effect, Respond, Visible, Forgotten;
  }

  /** How the phase moves on, and with it what the call is bound to return. */
  predicate PhaseMoves(s: State, s': State, c: Client, luck: Luck)
    requires c in s.tasks
  {
    var phase := s.tasks[c].phase;
    && c in s'.tasks && s'.tasks[c].call == s.tasks[c].call
    && (Failing(phase) ==> Failing(s'.tasks[c].phase))
    && (LateErrorAt(s, Advance(c, luck), s.tasks[c].call) ==> Succeeding(phase) && Failing(s'.tasks[c].phase))
    && (phase.Renaming? && s'.hist != s.hist ==> Succeeding(s'.tasks[c].phase))
    && (s'.hist == s.hist || !phase.Renaming? ==>
          (Succeeding(s'.tasks[c].phase) <==>
             Succeeding(phase) && !LateErrorAt(s, Advance(c, luck), s.tasks[c].call)))
  }

  lemma EarlyPhase(w: World, s: State, c: Client, luck: Luck)
    requires c in s.tasks && s.disk.vault != [] && Pending(s.tasks[c].phase)
    ensures PhaseMoves(s, Step(w, s, c, luck), c, luck)
  {
    hide Trunk, Open, Effect, Visible;
  }

  lemma LatePhase(w: World, s: State, c: Client, luck: Luck)
    requires c in s.tasks && s.disk.vault != [] && !Pending(s.tasks[c].phase)
    ensures PhaseMoves(s, Step(w, s, c, luck), c, luck)
  {
    hide Next, Step, StatusReadable;
    NextIsStep(w, s, c, luck);
    LateStep(w, s, c, luck);
  }

  lemma PhaseStep(w: World, s: State, c: Client, luck: Luck)
    requires c in s.tasks && s.disk.vault != []
    ensures PhaseMoves(s, Step(w, s, c, luck), c, luck)
  {
    hide *;
    if Pending(s.tasks[c].phase) {
      EarlyPhase(w, s, c, luck);
    } else {
      LatePhase(w, s, c, luck);
    }
  }

  lemma InForceGrows(w: World, h: seq<Event>, e: Event, call: nat)
    requires e.Done?
    ensures InForce(h + [e], call) <==> InForce(h, call) || (e.reply == Stored && e.call == call)
  {
    HistoryGrows(w, h, e);
    hide Trunk;
    var t := Trunk(h);
    if InForce(h, call) {
      var i :| 0 <= i < |t| && t[i].call == call;
      assert Trunk(h + [e])[i].call == call;
    }
    if e.reply == Stored && e.call == call {
      assert Trunk(h + [e])[|t|].call == call;
    }
  }

  /** The step of another client leaves the call's fate alone. */
  lemma OthersStep(w: World, s: State, a: Action, c: Client)
    requires s.disk.vault != [] && c in s.tasks && CallsNumbered(s)
    requires a.Advance? ==> a.c != c
    requires a.PowerLoss? ==> Next(w, s, a) == s
    ensures InForce(Next(w, s, a).hist, s.tasks[c].call) <==> InForce(s.hist, s.tasks[c].call)
    ensures !LateErrorAt(s, a, s.tasks[c].call)
  {
    hide Next, InForce;
    var h, h' := s.hist, Next(w, s, a).hist;
    if h' != h {
      HistoryStep(w, s, a);
      assert h' == h + [h'[|h|]];
      InForceGrows(w, h, h'[|h|], s.tasks[c].call);
    }
  }

  lemma OwnStep(w: World, s: State, c: Client, luck: Luck, late: bool)
    requires s.disk.vault != [] && c in s.tasks && Fate(s.hist, s.tasks[c], late)
    ensures var s' := Step(w, s, c, luck);
            c in s'.tasks && Fate(s'.hist, s'.tasks[c], late || LateErrorAt(s, Advance(c, luck), s.tasks[c].call))
  {
    hide Step, InForce, Succeeding, Failing, LateErrorAt;
    var s' := Step(w, s, c, luck);
    NextIsStep(w, s, c, luck);
    PhaseStep(w, s, c, luck);
    HistoryStep(w, s, Advance(c, luck));
    StoredOnRename(w, s, c, luck);
    FailingIsNot(s.tasks[c].phase);
    var h, h' := s.hist, s'.hist;
    if h' != h {
      assert h' == h + [h'[|h|]];
      InForceGrows(w, h, h'[|h|], s.tasks[c].call);
    }
  }

  lemma StoredOnRename(w: World, s: State, c: Client, luck: Luck)
    requires s.disk.vault != [] && c in s.tasks
    ensures var h, h' := s.hist, Step(w, s, c, luck).hist;
            s.tasks[c].phase.Renaming? && h' != h ==>
              |h'| == |h| + 1 && h'[|h|].Done? && h'[|h|].reply == Stored && !LateErrorAt(s, Advance(c, luck), s.tasks[c].call)
  {
    hide Trunk;
  }

  lemma FailingIsNot(phase: Phase)
    ensures Failing(phase) ==> !phase.Renaming? && !Succeeding(phase)
  {
  }

  /** Nothing of a call is in force, and no error of it has occurred, before it begins. */
  lemma {:induction false} TrunkCalls(h: seq<Event>, call: nat)
    requires InForce(h, call)
    ensures exists i :: 0 <= i < |h| && h[i].Done? && h[i].call == call
    decreases |h|
  {
    var front := h[..|h| - 1];
    var t := Trunk(front);
    var i :| 0 <= i < |Trunk(h)| && Trunk(h)[i].call == call;
    if i < |t| {
      assert t[i].call == call;
      TrunkCalls(front, call);
      var j :| 0 <= j < |front| && front[j].Done? && front[j].call == call;
      assert h[j].Done? && h[j].call == call;
    }
  }

  lemma {:induction false} LateErrorsBelow(w: World, s: State, actions: seq<Action>, call: nat)
    requires Inv(w, s) && s.disk.vault != [] && AllReadable(w, s, actions) && LateError(w, s, actions, call)
    ensures call < Run(w, s, actions).next
    decreases |actions|
  {
    hide Inv, Next, StatusReadable;
    var front, a := actions[..|actions| - 1], actions[|actions| - 1];
    var s1 := Run(w, s, front);
    RunKeeps(w, s, front);
    InvParts(w, s1);
    NextCall(w, s1, a);
    if LateError(w, s, front, call) {
      LateErrorsBelow(w, s, front, call);
    }
  }

  /** Only the call that advances changes. */
  predicate OwnOnly(s: State, s': State, c: Client) {
    s'.next == s.next && s'.tasks.Keys == s.tasks.Keys && forall e :: e in s.tasks && e != c ==> s'.tasks[e] == s.tasks[e]
  }

  lemma EarlyOwn(w: World, s: State, c: Client, luck: Luck)
    requires s.disk.vault != [] && c in s.tasks && Pending(s.tasks[c].phase)
    ensures OwnOnly(s, Step(w, s, c, luck), c)
  {
    hide Trunk, Open, Effect, Respond, Visible;
  }

  lemma LateOwn(w: World, s: State, c: Client, luck: Luck)
    requires s.disk.vault != [] && c in s.tasks && !Pending(s.tasks[c].phase)
    ensures OwnOnly(s, Step(w, s, c, luck), c)
  {
    hide Trunk, IfUnlockFails, Forgotten;
  }

  lemma StepIsOwn(w: World, s: State, c: Client, luck: Luck)
    requires s.disk.vault != [] && c in s.tasks
    ensures OwnOnly(s, Step(w, s, c, luck), c)
  {
    hide *;
    if Pending(s.tasks[c].phase) {
      EarlyOwn(w, s, c, luck);
    } else {
      LateOwn(w, s, c, luck);
    }
  }

  lemma NextCall(w: World, s: State, a: Action)
    requires s.disk.vault != []
    ensures s.next <= Next(w, s, a).next
    ensures forall c :: c in Next(w, s, a).tasks && c !in s.tasks ==>
      a.Invoke? && Next(w, s, a).hist == s.hist && Next(w, s, a).tasks[c].call == s.next && Next(w, s, a).tasks[c].phase == Waiting
    ensures forall c :: c in Next(w, s, a).tasks && c in s.tasks && !(a.Advance? && a.c == c) ==>
      Next(w, s, a).tasks[c] == s.tasks[c] && (a.PowerLoss? ==> Next(w, s, a) == s)
  {
    hide Step, Flushed, Crash;
    if a.Advance? && a.c in s.tasks {
      StepIsOwn(w, s, a.c, a.luck);
    }
  }

  /** Before a call begins nothing of it is in force. */
  lemma FreshCall(s: State)
    requires CallsNumbered(s)
    ensures !InForce(s.hist, s.next)
  {
    hide InForce, Trunk;
    if InForce(s.hist, s.next) { TrunkCalls(s.hist, s.next); }
  }

  lemma FateNext(w: World, s: State, a: Action, c: Client, late: bool)
    requires Inv(w, s) && s.disk.vault != [] && c in Next(w, s, a).tasks
    requires c in s.tasks ==> Fate(s.hist, s.tasks[c], late)
    requires c !in s.tasks ==> !late
    ensures var s' := Next(w, s, a); Fate(s'.hist, s'.tasks[c], late || LateErrorAt(s, a, s'.tasks[c].call))
  {
    hide Inv, Next, InForce;
    InvParts(w, s);
    NextCall(w, s, a);
    if c !in s.tasks {
      FreshCall(s);
    } else if a.Advance? && a.c == c {
      NextIsStep(w, s, c, a.luck);
      PhaseStep(w, s, c, a.luck);
      OwnStep(w, s, c, a.luck, late);
    } else {
      OthersStep(w, s, a, c);
    }
  }

  lemma {:induction false} FateRun(w: World, s0: State, actions: seq<Action>, c: Client)
    requires Initial(w, s0) && AllReadable(w, s0, actions) && c in Run(w, s0, actions).tasks
    ensures var s := Run(w, s0, actions); Fate(s.hist, s.tasks[c], LateError(w, s0, actions, s.tasks[c].call))
    decreases |actions|
  {
    hide Inv, Next, StatusReadable, Fate, LateErrorAt;
    InitialKeeps(w, s0);
    assert actions != [];
    var front, a := actions[..|actions| - 1], actions[|actions| - 1];
    var s := Run(w, s0, front);
    RunKeeps(w, s0, front);
    InvParts(w, s);
    NextCall(w, s, a);
    var call := Next(w, s, a).tasks[c].call;
    if c in s.tasks {
      SameCall(w, s, a, c);
      FateRun(w, s0, front, c);
    } else if LateError(w, s0, front, call) {
      LateErrorsBelow(w, s0, front, call);
    }
    FateNext(w, s, a, c, LateError(w, s0, front, call));
  }

  lemma SameCall(w: World, s: State, a: Action, c: Client)
    requires s.disk.vault != [] && c in s.tasks && c in Next(w, s, a).tasks
    ensures Next(w, s, a).tasks[c].call == s.tasks[c].call
  {
    hide Next;
    NextCall(w, s, a);
    if a.Advance? && a.c == c {
      NextIsStep(w, s, c, a.luck);
      PhaseStep(w, s, c, a.luck);
    }
  }

  /**
   In every interleaving: a set or delete that has returned is in force if and only if it returned
   success or, after its rename, met an error at the directory sync or at the unlock. In the latter
   case it returned an error.
   */
  lemma ErrorAfterChange(w: World, s0: State, actions: seq<Action>, c: Client)
    requires Initial(w, s0) && AllReadable(w, s0, actions)
    requires c in Run(w, s0, actions).tasks && Run(w, s0, actions).tasks[c].phase.Returned?
    ensures var s := Run(w, s0, actions);
            var task := s.tasks[c];
            var late := LateError(w, s0, actions, task.call);
            && (InForce(s.hist, task.call) <==> task.phase.outcome == Answer(Stored) || late)
            && (late ==> task.phase.outcome == Failed)
  {
    hide Run, AllReadable, LateError, InForce;
    FateRun(w, s0, actions, c);
  }

  /** A call right behind its rename, alone from there on, whatever goes wrong. */
  lemma LateErrorReturns(w: World, s: State, c: Client, l1: Luck, l2: Luck, l3: Luck)
    requires Inv(w, s) && s.disk.vault != [] && c in s.tasks && s.tasks[c].phase.Flushing?
    ensures var s' := Next(w, Next(w, Next(w, s, Advance(c, l1)), Advance(c, l2)), Advance(c, l3));
            && c in s'.tasks && s'.tasks[c].phase == Returned(if l1.Fine? && l2.Fine? then Answer(Stored) else Failed)
            && s'.hist == s.hist && FileHoldsMap(w, s') && InForce(s'.hist, s.tasks[c].call)
  {
    hide Inv;
    var s1 := Next(w, s, Advance(c, l1));
    var s2 := Next(w, s1, Advance(c, l2));
    var s3 := Next(w, s2, Advance(c, l3));
    LateSteps(w, s, c, l1, l2, l3);
    FlushingInForce(w, s, c);
    hide Next, InForce, FileHoldsMap;
    StepKeeps(w, s, Advance(c, l1));
    StepKeeps(w, s1, Advance(c, l2));
    StepKeeps(w, s2, Advance(c, l3));
    InvParts(w, s3);
    VisibleHolds(w, s3);
  }

  lemma LateSteps(w: World, s: State, c: Client, l1: Luck, l2: Luck, l3: Luck)
    requires s.disk.vault != [] && c in s.tasks && s.tasks[c].phase.Flushing?
    ensures var s1 := Next(w, s, Advance(c, l1));
            var s2 := Next(w, s1, Advance(c, l2));
            var s3 := Next(w, s2, Advance(c, l3));
            && c in s3.tasks && s3.tasks[c].phase == Returned(if l1.Fine? && l2.Fine? then Answer(Stored) else Failed)
            && s3.hist == s.hist
            && StatusReadable(w, s, Advance(c, l1)) && StatusReadable(w, s1, Advance(c, l2))
            && StatusReadable(w, s2, Advance(c, l3))
  {
    hide Next, StatusReadable;
    var s1 := Next(w, s, Advance(c, l1));
    var s2 := Next(w, s1, Advance(c, l2));
    LateStep(w, s, c, l1);
    LateStep(w, s1, c, l2);
    LateStep(w, s2, c, l3);
  }

  lemma FlushingInForce(w: World, s: State, c: Client)
    requires Inv(w, s) && s.disk.vault != [] && c in s.tasks && s.tasks[c].phase.Flushing?
    ensures InForce(s.hist, s.tasks[c].call)
  {
    hide Trunk, Legal, EntriesMatch, CallsNumbered, AckedFlushed;
    var t := Trunk(s.hist);
    assert JustCommitted(s, s.tasks[c]);
    assert t[|t| - 1].call == s.tasks[c].call;
  }
}
