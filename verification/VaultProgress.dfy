/**
 What a call achieves when nothing fails: it returns the plain map's answer. Also: what stale
 temporary files cost, and what an unreadable file status costs.
 */
module VaultProgress {
  import opened VaultDisk
  import opened VaultMachine
  import opened VaultSafety
  import opened VaultRuns

  /** `n` steps of one client without an error. */
  function Drive(w: World, s: State, c: Client, n: nat): State
    requires s.disk.vault != []
    ensures Drive(w, s, c, n).disk.vault != []
    decreases n
  {
    if n == 0 then s else Drive(w, Next(w, s, Advance(c, Fine(0))), c, n - 1)
  }

  /** Steps left until the call returns, when nothing fails. */
  function Rank(phase: Phase): nat {
    match phase
    case Waiting => 13
    case Looking => 12
    case Reading => 11
    case Opening(_) => 10
    case Sealing(_) => 9
    case Creating(_) => 8
    case Writing(_, done) => if done < 3 then 7 - done else 4
    case Syncing(_) => 4
    case Renaming(_) => 3
    case Flushing => 2
    case Cleaning => 2
    case Unlocking(_) => 1
    case Returned(_) => 0
  }

  /** Nothing has failed so far, and no leftover file is in the way. */
  predicate Healthy(s: State, c: Client)
    requires c in s.tasks
  {
    var phase := s.tasks[c].phase;
    && InSection(phase) && phase != Cleaning && phase != Unlocking(Failed)
    && (Rank(phase) >= 8 ==> c.pid !in s.disk.temps)
  }

  /** The answer a plain map gives to the call, before or after it took effect. */
  function DueReply(w: World, s: State, task: Task): Outcome {
    if Pending(task.phase) then Answer(Respond(Current(w, s.hist), task.op)) else Owed(task.phase)
  }

  /** The map a plain map is left with by the call. */
  function DueMap(w: World, s: State, task: Task): Plain {
    if Pending(task.phase) && Respond(Current(w, s.hist), task.op) == Stored
    then Effect(Current(w, s.hist), task.op) else Current(w, s.hist)
  }

  /** One step further towards the same answer and the same map. */
  predicate Closer(w: World, s: State, s': State, c: Client) {
    && c in s.tasks && c in s'.tasks && s'.tasks[c].op == s.tasks[c].op && s'.tasks[c].call == s.tasks[c].call
    && DueReply(w, s', s'.tasks[c]) == DueReply(w, s, s.tasks[c])
    && DueMap(w, s', s'.tasks[c]) == DueMap(w, s, s.tasks[c])
    && Rank(s'.tasks[c].phase) < Rank(s.tasks[c].phase)
    && (s'.tasks[c].phase.Returned? || (s'.holder == Held(c) && Healthy(s', c)))
    && (s'.tasks[c].phase.Returned? ==> s'.holder == Free)
  }

  /** A step that leaves the history alone keeps what is due. */
  lemma QuietCloser(w: World, s: State, c: Client)
    requires Inv(w, s) && c in s.tasks && s.holder == Held(c) && Healthy(s, c) && s.disk.vault != []
    requires var phase := s.tasks[c].phase; phase.Sealing? || phase.Creating? || phase.Writing? || phase.Syncing? || phase.Reading?
    ensures Closer(w, s, Step(w, s, c, Fine(0)), c)
  {
    hide Legal, EntriesMatch, LockMatches, AckedFlushed, CallsNumbered, Current, Respond, Effect, Open;
  }

  /** The answer is given or the map to save is settled. */
  lemma LoadedCloser(w: World, s: State, c: Client, plain: Plain)
    requires c in s.tasks && s.holder == Held(c) && Pending(s.tasks[c].phase) && Rank(s.tasks[c].phase) > 9 && s.disk.vault != []
    requires plain == Current(w, s.hist) && c.pid !in s.disk.temps
    ensures Closer(w, s, Loaded(s, c, plain), c)
  {
    var task := s.tasks[c];
    var reply := Respond(plain, task.op);
    HistoryGrows(w, s.hist, Done(task.call, task.op, reply));
    hide Trunk, Replay;
  }

  lemma CommitCloser(w: World, s: State, c: Client)
    requires Inv(w, s) && c in s.tasks && s.holder == Held(c) && s.tasks[c].phase.Renaming? && s.disk.vault != []
    ensures Closer(w, s, Step(w, s, c, Fine(0)), c)
  {
    var task := s.tasks[c];
    HistoryGrows(w, s.hist, Done(task.call, task.op, Stored));
    ReplayCommit(w.start, Trunk(s.hist), Commit(task.call, task.op));
    hide Legal, EntriesMatch, LockMatches, AckedFlushed, CallsNumbered, Trunk, Replay, Respond, Effect, Open;
  }

  lemma EndCloser(w: World, s: State, c: Client)
    requires c in s.tasks && s.holder == Held(c) && Healthy(s, c) && s.disk.vault != []
    requires s.tasks[c].phase.Flushing? || s.tasks[c].phase.Unlocking?
    ensures Closer(w, s, Step(w, s, c, Fine(0)), c)
  {
    hide Trunk, Current, Respond, Effect, Open;
  }

  lemma LookCloser(w: World, s: State, c: Client)
    requires Inv(w, s) && c in s.tasks && s.holder == Held(c) && Healthy(s, c) && s.disk.vault != []
    requires s.tasks[c].phase.Looking? || s.tasks[c].phase.Opening?
    ensures Closer(w, s, Step(w, s, c, Fine(0)), c)
  {
    var phase, d := s.tasks[c].phase, s.disk;
    VisibleIsCurrent(w, s);
    hide Legal, EntriesMatch, LockMatches, AckedFlushed, CallsNumbered, Current, Respond, Effect, Open, Closer;
    if phase.Opening? {
      LoadedCloser(w, s, c, Open(w.key, phase.raw).plain);
    } else if Visible(d) == Missing {
      LoadedCloser(w, s, c, map[]);
    } else {
      FoundCloser(w, s, c);
    }
  }

  lemma FoundCloser(w: World, s: State, c: Client)
    requires c in s.tasks && s.holder == Held(c) && s.tasks[c].phase.Looking? && Healthy(s, c)
    requires s.disk.vault != [] && Visible(s.disk) != Missing
    ensures Closer(w, s, Step(w, s, c, Fine(0)), c)
  {
    hide Trunk, Current, Respond, Effect, Open;
  }

  lemma StepCloser(w: World, s: State, c: Client)
    requires Inv(w, s) && c in s.tasks && s.holder == Held(c) && Healthy(s, c) && s.disk.vault != []
    ensures Closer(w, s, Step(w, s, c, Fine(0)), c)
  {
    HealthyIs(s, c);
    hide *;
    match s.tasks[c].phase
    case Looking => LookCloser(w, s, c);
    case Opening(_) => LookCloser(w, s, c);
    case Renaming(_) => CommitCloser(w, s, c);
    case Flushing => EndCloser(w, s, c);
    case Unlocking(_) => EndCloser(w, s, c);
    case Waiting =>
    case Returned(_) =>
    case Cleaning =>
    case Reading => QuietCloser(w, s, c);
    case Sealing(_) => QuietCloser(w, s, c);
    case Creating(_) => QuietCloser(w, s, c);
    case Writing(_, _) => QuietCloser(w, s, c);
    case Syncing(_) => QuietCloser(w, s, c);
  }

  lemma HealthyIs(s: State, c: Client)
    requires c in s.tasks && Healthy(s, c)
    ensures !s.tasks[c].phase.Waiting? && !s.tasks[c].phase.Returned? && s.tasks[c].phase != Cleaning
  {
  }

  /** Once inside its section, a call that meets no error returns the plain map's answer. */
  lemma {:induction false} SectionCompletes(w: World, s: State, c: Client) returns (n: nat)
    requires Inv(w, s) && c in s.tasks && s.holder == Held(c) && Healthy(s, c) && s.disk.vault != []
    ensures var s' := Drive(w, s, c, n);
            && c in s'.tasks && s'.tasks[c].phase.Returned? && s'.holder == Free && Inv(w, s')
            && s'.tasks[c].phase.outcome == DueReply(w, s, s.tasks[c]) && Current(w, s'.hist) == DueMap(w, s, s.tasks[c])
    decreases Rank(s.tasks[c].phase)
  {
    var s1 := Next(w, s, Advance(c, Fine(0)));
    StepCloser(w, s, c);
    StepKeeps(w, s, Advance(c, Fine(0)));
    hide Inv, Next, Healthy, Current;
    if s1.tasks[c].phase.Returned? {
      n := 1;
      assert Drive(w, s1, c, 0) == s1;
    } else {
      n := SectionCompletes(w, s1, c);
      n := n + 1;
    }
  }

  /**
   A call that waits for a free lock, with no leftover temporary file of its process, and meets no
   error returns exactly what a plain map would, and leaves the vault holding that map.
   */
  lemma UndisturbedCall(w: World, s: State, c: Client) returns (n: nat)
    requires Inv(w, s) && c in s.tasks && s.tasks[c].phase.Waiting? && s.holder == Free
    requires c.pid !in s.disk.temps && s.disk.vault != []
    ensures var m, op := Current(w, s.hist), s.tasks[c].op;
            var s' := Drive(w, s, c, n);
            && c in s'.tasks && s'.tasks[c].phase.Returned? && FileHoldsMap(w, s')
            && var outcome, m' := s'.tasks[c].phase.outcome, Current(w, s'.hist);
               match op
               case Get(id) => m' == m && outcome == Answer(if id in m then Value(m[id]) else Unavailable)
               case Set(id, value) => m' == m[id := value] && outcome == Answer(Stored)
               case Delete(id) =>
                 if id in m then m' == m - {id} && outcome == Answer(Stored) else m' == m && outcome == Answer(Unavailable)
  {
    hide Inv, EntriesMatch, Current, FileHoldsMap, DueReply, DueMap, Healthy;
    var s1 := Next(w, s, Advance(c, Fine(0)));
    LockTaken(w, s, c);
    hide Next;
    StepKeeps(w, s, Advance(c, Fine(0)));
    n := SectionCompletes(w, s1, c);
    InvParts(w, Drive(w, s1, c, n));
    VisibleHolds(w, Drive(w, s1, c, n));
    DueIs(w, s1, s1.tasks[c]);
    n := n + 1;
  }

  lemma LockTaken(w: World, s: State, c: Client)
    requires c in s.tasks && s.tasks[c].phase.Waiting? && s.holder == Free && c.pid !in s.disk.temps && s.disk.vault != []
    ensures var s1 := Next(w, s, Advance(c, Fine(0)));
            && s1.holder == Held(c) && c in s1.tasks && s1.tasks[c].op == s.tasks[c].op && s1.hist == s.hist
            && s1.tasks[c].phase.Looking? && Healthy(s1, c) && StatusReadable(w, s, Advance(c, Fine(0)))
  {
    assert Next(w, s, Advance(c, Fine(0))) == Goto(s.(holder := Held(c)), c, Looking);
  }

  /** What is due, in the words of a map. */
  lemma DueIs(w: World, s: State, task: Task)
    requires task.phase.Looking?
    ensures var m, outcome, m' := Current(w, s.hist), DueReply(w, s, task), DueMap(w, s, task);
            match task.op
            case Get(id) => m' == m && outcome == Answer(if id in m then Value(m[id]) else Unavailable)
            case Set(id, value) => m' == m[id := value] && outcome == Answer(Stored)
            case Delete(id) =>
              if id in m then m' == m - {id} && outcome == Answer(Stored) else m' == m && outcome == Answer(Unavailable)
  {
    hide Current;
  }

  // ----- stale temporary files -----

  /** A save meets a file left under the temporary name of its process. */
  predicate Collides(s: State, a: Action, pid: nat) {
    a.Advance? && a.luck.Fine? && a.c in s.tasks && s.tasks[a.c].phase.Creating? && a.c.pid == pid && pid in s.disk.temps
  }

  /** The process is not killed, power stays on, and no removal of its temporary file fails. */
  predicate Calm(s: State, a: Action, pid: nat) {
    && a != Kill(pid) && !a.PowerLoss?
    && (a.Advance? && a.luck.Error? && a.c in s.tasks && a.c.pid == pid ==> s.tasks[a.c].phase != Cleaning)
  }

  predicate AllCalm(w: World, s: State, actions: seq<Action>, pid: nat)
    requires s.disk.vault != []
    decreases |actions|
  {
    actions == [] ||
    (AllCalm(w, s, actions[..|actions| - 1], pid) && Calm(Run(w, s, actions[..|actions| - 1]), actions[|actions| - 1], pid))
  }

  function Collisions(w: World, s: State, actions: seq<Action>, pid: nat): nat
    requires s.disk.vault != []
    decreases |actions|
  {
    if actions == [] then 0
    else
      var front := actions[..|actions| - 1];
      Collisions(w, s, front, pid) + if Collides(Run(w, s, front), actions[|actions| - 1], pid) then 1 else 0
  }

  /** A temporary file exists only while the lock holder is using it or about to remove it. */
  predicate Tidy(s: State, pid: nat) {
    pid in s.disk.temps ==>
      && s.holder.Held? && s.holder.client.pid == pid && s.holder.client in s.tasks
      && var phase := s.tasks[s.holder.client].phase;
         phase.Writing? || phase.Syncing? || phase.Renaming? || phase.Cleaning?
  }

  lemma TidyStep(s: State, w: World, a: Action, pid: nat)
    requires LockMatches(s) && s.disk.vault != [] && Calm(s, a, pid) && (Tidy(s, pid) || Collides(s, a, pid))
    ensures Tidy(Next(w, s, a), pid)
    ensures Tidy(s, pid) ==> !Collides(s, a, pid)
  {
    hide Trunk, Open, Current, Respond, Effect;
  }

  /** However many saves follow: a stale temporary file makes at most one of them fail. */
  lemma {:induction false} StaleTempOnce(w: World, s: State, actions: seq<Action>, pid: nat)
    requires Inv(w, s) && s.disk.vault != [] && AllReadable(w, s, actions) && AllCalm(w, s, actions, pid)
    ensures Collisions(w, s, actions, pid) <= 1
    ensures Collisions(w, s, actions, pid) == 1 ==> Tidy(Run(w, s, actions), pid)
    decreases |actions|
  {
    if actions != [] {
      var front, a := actions[..|actions| - 1], actions[|actions| - 1];
      var s1 := Run(w, s, front);
      StaleTempOnce(w, s, front, pid);
      RunKeeps(w, s, front);
      InvParts(w, s1);
      hide Inv, Next, StatusReadable, Calm, Collides, Tidy, LockMatches;
      if Collides(s1, a, pid) || Tidy(s1, pid) { TidyStep(s1, w, a, pid); }
    }
  }

  /** That failure removes the file, touches neither vault nor history, and frees the lock. */
  lemma CollisionRecovers(w: World, s: State, c: Client)
    requires Inv(w, s) && c in s.tasks && s.holder == Held(c) && s.tasks[c].phase.Creating? && s.disk.vault != []
    requires c.pid in s.disk.temps
    ensures var s' := Drive(w, s, c, 3);
            && c in s'.tasks && s'.tasks[c].phase == Returned(Failed) && s'.holder == Free && Inv(w, s')
            && s'.disk == Disk(s.disk.vault, s.disk.temps - {c.pid}) && s'.hist == s.hist
  {
    var a := Advance(c, Fine(0));
    var s1 := Goto(s, c, Cleaning);
    var s2 := Goto(s1.(disk := RemoveTemp(s.disk, c.pid)), c, Unlocking(Failed));
    var s3 := Goto(s2.(holder := Free), c, Returned(Failed));
    assert Next(w, s, a) == s1 && Next(w, s1, a) == s2 && Next(w, s2, a) == s3;
    StepKeeps(w, s, a);
    StepKeeps(w, s1, a);
    StepKeeps(w, s2, a);
    hide Inv, Next;
    assert Drive(w, s3, c, 0) == s3;
    assert Drive(w, s2, c, 1) == s3;
    assert Drive(w, s1, c, 2) == s3;
  }

  // ----- an unreadable file status -----

  /** A save at `phase` with `content` in the temporary file, otherwise as in `s`. */
  function Midway(s: State, c: Client, content: Content, synced: bool, phase: Phase): State
    requires c in s.tasks
  {
    Goto(s.(disk := s.disk.(temps := s.disk.temps[c.pid := Inode(content, synced)])), c, phase)
  }

  lemma WriteOne(w: World, s: State, c: Client, image: Content, done: nat)
    requires c in s.tasks && done < |image| == 3 && s.disk.vault != []
    ensures Next(w, Midway(s, c, image[..done], false, Writing(image, done)), Advance(c, Fine(0)))
         == Midway(s, c, image[..done + 1], false, if done < 2 then Writing(image, done + 1) else Syncing(image))
  {
    assert image[..done] + [image[done]] == image[..done + 1];
    hide Trunk;
  }

  lemma CreateOne(w: World, s: State, c: Client, plain: Plain)
    requires c in s.tasks && s.tasks[c].phase == Sealing(plain) && c.pid !in s.disk.temps && s.disk.vault != []
    ensures var image := Image(w.key, 0, plain);
            && Next(w, s, Advance(c, Fine(0))) == Goto(s, c, Creating(image)) && |image| == 3
            && Next(w, Goto(s, c, Creating(image)), Advance(c, Fine(0))) == Midway(s, c, image[..0], false, Writing(image, 0))
  {
    hide Trunk;
  }

  lemma SyncOne(w: World, s: State, c: Client, image: Content)
    requires c in s.tasks && s.disk.vault != []
    ensures Next(w, Midway(s, c, image, false, Syncing(image)), Advance(c, Fine(0)))
         == Midway(s, c, image, true, Renaming(image))
  {
    hide Trunk;
  }

  /** From sealing to renaming without an error: the complete image is in the temporary file, synced. */
  lemma PreparePath(w: World, s: State, c: Client, plain: Plain)
    requires c in s.tasks && s.tasks[c].phase == Sealing(plain) && c.pid !in s.disk.temps && s.disk.vault != []
    ensures var image := Image(w.key, 0, plain);
            Drive(w, s, c, 6) == Midway(s, c, image, true, Renaming(image))
  {
    hide Next, Midway, Image, Drive, Goto;
    CreateOne(w, s, c, plain);
    var image := Image(w.key, 0, plain);
    var s1 := Goto(s, c, Creating(image));
    var s2 := Midway(s, c, image[..0], false, Writing(image, 0));
    var s3 := Midway(s, c, image[..1], false, Writing(image, 1));
    var s4 := Midway(s, c, image[..2], false, Writing(image, 2));
    var s5 := Midway(s, c, image[..3], false, Syncing(image));
    var s6 := Midway(s, c, image, true, Renaming(image));
    assert image[..3] == image;
    WriteOne(w, s, c, image, 0);
    WriteOne(w, s, c, image, 1);
    WriteOne(w, s, c, image, 2);
    SyncOne(w, s, c, image);
    DriveOne(w, s, c, 6);
    DriveOne(w, s1, c, 5);
    DriveOne(w, s2, c, 4);
    DriveOne(w, s3, c, 3);
    DriveOne(w, s4, c, 2);
    DriveOne(w, s5, c, 1);
    DriveOne(w, s6, c, 0);
  }

  lemma DriveOne(w: World, s: State, c: Client, n: nat)
    requires s.disk.vault != []
    ensures Drive(w, s, c, n) == if n == 0 then s else Drive(w, Next(w, s, Advance(c, Fine(0))), c, n - 1)
  {
    hide Next;
  }

  /** From renaming to return without an error. */
  lemma FinishPath(w: World, s: State, c: Client, image: Content)
    requires c in s.tasks && s.tasks[c].phase == Renaming(image) && c.pid in s.disk.temps && s.disk.vault != []
    ensures var s' := Drive(w, s, c, 3);
            && c in s'.tasks && s'.tasks[c].phase == Returned(Answer(Stored))
            && s'.disk == Disk([File(s.disk.temps[c.pid])], s.disk.temps - {c.pid})
  {
    var a := Advance(c, Fine(0));
    var s1 := Next(w, s, a);
    var s2 := Next(w, s1, a);
    var s3 := Next(w, s2, a);
    assert s1.tasks[c].phase == Flushing && s2.tasks[c].phase == Unlocking(Answer(Stored));
    assert s1.disk == RenameTemp(s.disk, c.pid);
    assert s3.tasks[c].phase == Returned(Answer(Stored));
    assert s3.disk.vault == [File(s.disk.temps[c.pid])];
    hide Next;
    assert Drive(w, s3, c, 0) == s3;
    assert Drive(w, s2, c, 1) == s3;
    assert Drive(w, s1, c, 2) == s3;
  }

  lemma {:induction false} DriveSplit(w: World, s: State, c: Client, m: nat, n: nat)
    requires s.disk.vault != []
    ensures Drive(w, s, c, m + n) == Drive(w, Drive(w, s, c, m), c, n)
    decreases m
  {
    hide Next;
    if m > 0 { DriveSplit(w, Next(w, s, Advance(c, Fine(0))), c, m - 1, n); }
  }

  /** From sealing to return without an error: the vault holds exactly the map that was sealed. */
  lemma SavePath(w: World, s: State, c: Client, plain: Plain)
    requires c in s.tasks && s.tasks[c].phase == Sealing(plain) && c.pid !in s.disk.temps && s.disk.vault != []
    ensures var s' := Drive(w, s, c, 9);
            && c in s'.tasks && s'.tasks[c].phase == Returned(Answer(Stored))
            && s'.disk == Disk([File(Inode(Image(w.key, 0, plain), true))], s.disk.temps)
  {
    var image := Image(w.key, 0, plain);
    PreparePath(w, s, c, plain);
    DriveSplit(w, s, c, 6, 3);
    FinishPath(w, Midway(s, c, image, true, Renaming(image)), c, image);
    hide Drive, Image;
    assert s.disk.temps[c.pid := Inode(image, true)] - {c.pid} == s.disk.temps;
  }

  /**
   What the hypothesis on readable file status is for. If the existence test of a set fails on a
   vault that is there, and nothing else fails, the call returns success and every other secret
   is gone from the file.
   */
  lemma UnreadableStatusForgets(w: World, s: State, c: Client, id: string, value: string)
    requires c in s.tasks && s.tasks[c].phase == Looking && s.tasks[c].op == Set(id, value)
    requires c.pid !in s.disk.temps && s.disk.vault != []
    ensures var s' := Drive(w, Next(w, s, Advance(c, Error(false, 0))), c, 9);
            && c in s'.tasks && s'.tasks[c].phase == Returned(Answer(Stored))
            && s'.disk.vault == [File(Inode(Image(w.key, 0, map[id := value]), true))]
  {
    var s1 := Next(w, s, Advance(c, Error(false, 0)));
    assert map[][id := value] == map[id := value];
    assert s1.tasks[c].phase == Sealing(map[id := value]) && s1.disk == s.disk;
    SavePath(w, s1, c, map[id := value]);
  }

  /** It does no harm exactly when that id was the only secret, if any. */
  lemma {:induction false} ForgetsUnlessHarmless(w: World, s: State, c: Client, id: string, value: string)
    requires Inv(w, s) && c in s.tasks && s.tasks[c].phase == Looking && s.tasks[c].op == Set(id, value)
    requires c.pid !in s.disk.temps && s.disk.vault != []
    ensures var s' := Drive(w, Next(w, s, Advance(c, Error(false, 0))), c, 9);
            && Visible(s'.disk).File?
            && (Open(w.key, Visible(s'.disk).inode.content) == Good(Effect(Current(w, s.hist), Set(id, value)))
                <==> Harmless(Current(w, s.hist), Set(id, value)))
  {
    UnreadableStatusForgets(w, s, c, id, value);
    HarmlessExactly(Current(w, s.hist), Set(id, value));
    assert map[][id := value] == map[id := value];
    hide Drive, Next, Inv, Current;
  }
}
