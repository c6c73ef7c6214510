/**
 Any number of processes and threads running get, set and delete on one encrypted vault file, one
 file-system step at a time, in any interleaving, with errors, process kills and power losses.
 */
module VaultMachine {
  import opened Bytes
  import opened VaultDisk

  datatype Op = Get(id: string) | Set(id: string, value: string) | Delete(id: string)

  /** `Unavailable` is the error for an absent id; `Stored` is the success of set and delete. */
  datatype Reply = Value(value: string) | Unavailable | Stored

  /** `Failed` is any other error: input/output, locking, or a file that cannot be decrypted. */
  datatype Outcome = Answer(reply: Reply) | Failed

  /** What a call is about to do. */
  datatype Phase =
    | Waiting                                // to take the file lock
    | Looking                                // to test whether the vault file exists
    | Reading                                // to read it
    | Opening(raw: Content)                  // to read the key and decrypt
    | Sealing(plain: Plain)                  // to read the key, draw a nonce and encrypt
    | Creating(image: Content)               // to create the temporary file exclusively
    | Writing(image: Content, done: nat)     // to write piece number `done`
    | Syncing(image: Content)                // to sync the temporary file
    | Renaming(image: Content)               // to rename it over the vault file
    | Flushing                               // to sync the directory
    | Cleaning                               // to remove the temporary file after an error
    | Unlocking(outcome: Outcome)            // to release the lock
    | Returned(outcome: Outcome)

  /** One call: its number, operation, the length of the history when it began, its position. */
  datatype Task = Task(call: nat, op: Op, since: nat, phase: Phase)

  /** The history: effects and observations in lock order, and what each power loss undid. */
  datatype Event = Done(call: nat, op: Op, reply: Reply) | PowerLost(survivors: nat)

  datatype State = State(
    disk: Disk,
    holder: Holder,
    tasks: map<Client, Task>,
    hist: seq<Event>,
    acked: set<nat>,       // set and delete calls that returned success
    next: nat)             // number of the next call

  /** The key and the secrets the vault held at the start. */
  datatype World = World(key: Bytes, start: Plain)

  // ----- the plain map -----

  datatype Commit = Commit(call: nat, op: Op)

  function Respond(m: Plain, op: Op): Reply {
    match op
    case Get(id) => if id in m then Value(m[id]) else Unavailable
    case Set(_, _) => Stored
    case Delete(id) => if id in m then Stored else Unavailable
  }

  function Effect(m: Plain, op: Op): Plain {
    match op
    case Get(_) => m
    case Set(id, value) => m[id := value]
    case Delete(id) => m - {id}
  }

  function Replay(start: Plain, trunk: seq<Commit>): Plain {
    if trunk == [] then start else Effect(Replay(start, trunk[..|trunk| - 1]), trunk[|trunk| - 1].op)
  }

  /** The commits in force after a history: a power loss takes back all but the first survivors. */
  function Trunk(h: seq<Event>): seq<Commit> {
    if h == [] then []
    else
      var t := Trunk(h[..|h| - 1]);
      match h[|h| - 1]
      case Done(call, op, reply) => if reply == Stored then t + [Commit(call, op)] else t
      case PowerLost(n) => if n <= |t| then t[..n] else t
  }

  function Current(w: World, h: seq<Event>): Plain {
    Replay(w.start, Trunk(h))
  }

  /** Every reply in the history is the one a plain map would give at that point. */
  predicate Legal(w: World, h: seq<Event>) {
    h == [] ||
    (Legal(w, h[..|h| - 1]) &&
     match h[|h| - 1]
     case Done(_, op, reply) => reply == Respond(Current(w, h[..|h| - 1]), op)
     case PowerLost(n) => n <= |Trunk(h[..|h| - 1])|)
  }

  // ----- steps -----

  /** How one step goes: well, or with an error that may leave debris or sync some entries. */
  datatype Luck = Fine(nonce: nat) | Error(torn: bool, synced: nat)

  datatype Action =
    | Invoke(c: Client, op: Op)
    | Advance(c: Client, luck: Luck)
    | Collect(c: Client)
    | Kill(pid: nat)
    | PowerLoss(pick: nat, garbage: Content, temps: map<nat, Inode>)

  function Goto(s: State, c: Client, phase: Phase): State
    requires c in s.tasks
  {
    s.(tasks := s.tasks[c := s.tasks[c].(phase := phase)])
  }

  function Log(s: State, c: Client, reply: Reply): State
    requires c in s.tasks
  {
    s.(hist := s.hist + [Done(s.tasks[c].call, s.tasks[c].op, reply)])
  }

  /** `load_plain` has produced `plain`: answer from it, or go on to save the changed map. */
  function Loaded(s: State, c: Client, plain: Plain): State
    requires c in s.tasks
  {
    var op := s.tasks[c].op;
    if op.Get? || (op.Delete? && op.id !in plain)
    then Goto(Log(s, c, Respond(plain, op)), c, Unlocking(Answer(Respond(plain, op))))
    else Goto(s, c, Sealing(Effect(plain, op)))
  }

  /** How many older entries a failing directory sync had put behind it: any number, even all. */
  function Forgotten(d: Disk, luck: Luck): (k: nat)
    requires luck.Error? && d.vault != []
    ensures k < |d.vault|
  {
    if luck.synced < |d.vault| then luck.synced else |d.vault| - 1
  }

  /** An error of the call itself is returned as it is; a result is lost with the unlock. */
  function IfUnlockFails(outcome: Outcome): Outcome {
    if outcome == Answer(Unavailable) then outcome else Failed
  }

  function Step(w: World, s: State, c: Client, luck: Luck): State
    requires c in s.tasks && s.disk.vault != []
  {
    var task, d := s.tasks[c], s.disk;
    match task.phase
    case Waiting =>
      if luck.Error? then Goto(s, c, Returned(Failed))
      else if s.holder != Free then s
      else Goto(s.(holder := Held(c)), c, Looking)
    case Looking =>
      // Path::exists answers false when the file's status cannot be read
      if luck.Error? || Visible(d) == Missing then Loaded(s, c, map[]) else Goto(s, c, Reading)
    case Reading =>
      if luck.Error? || Visible(d) == Missing then Goto(s, c, Unlocking(Failed))
      else Goto(s, c, Opening(Visible(d).inode.content))
    case Opening(raw) =>
      if luck.Error? || Open(w.key, raw) == Bad then Goto(s, c, Unlocking(Failed))
      else Loaded(s, c, Open(w.key, raw).plain)
    case Sealing(plain) =>
      if luck.Error? then Goto(s, c, Unlocking(Failed))
      else Goto(s, c, Creating(Image(w.key, luck.nonce, plain)))
    case Creating(image) =>
      if luck.Error? || c.pid in d.temps then Goto(s, c, Cleaning)
      else Goto(s.(disk := CreateTemp(d, c.pid)), c, Writing(image, 0))
    case Writing(image, done) =>
      if c.pid !in d.temps || done >= |image| then Goto(s, c, Cleaning)
      else if luck.Error? then
        Goto(s.(disk := if luck.torn then Append(d, c.pid, Torn) else d), c, Cleaning)
      else
        Goto(s.(disk := Append(d, c.pid, image[done])), c,
             if done + 1 < |image| then Writing(image, done + 1) else Syncing(image))
    case Syncing(image) =>
      if luck.Error? || c.pid !in d.temps then Goto(s, c, Cleaning)
      else Goto(s.(disk := SyncTemp(d, c.pid)), c, Renaming(image))
    case Renaming(_) =>
      if luck.Error? || c.pid !in d.temps then Goto(s, c, Cleaning)
      else Goto(Log(s.(disk := RenameTemp(d, c.pid)), c, Stored), c, Flushing)
    case Flushing =>
      if luck.Error? then Goto(s.(disk := SyncDirectory(d, Forgotten(d, luck))), c, Cleaning)
      else Goto(s.(disk := SyncDirectory(d, |d.vault| - 1)), c, Unlocking(Answer(Stored)))
    case Cleaning =>
      Goto(if luck.Error? then s else s.(disk := RemoveTemp(d, c.pid)), c, Unlocking(Failed))
    case Unlocking(outcome) =>
      if luck.Error? then Goto(s.(holder := Free), c, Returned(IfUnlockFails(outcome)))
      else Goto(s.(holder := Free, acked := if outcome == Answer(Stored) then s.acked + {task.call} else s.acked),
                c, Returned(outcome))
    case Returned(_) => s
  }

  function Next(w: World, s: State, a: Action): State
    requires s.disk.vault != []
    ensures Next(w, s, a).disk.vault != []
  {
    match a
    case Invoke(c, op) =>
      if c in s.tasks then s
      else s.(tasks := s.tasks[c := Task(s.next, op, |s.hist|, Waiting)], next := s.next + 1)
    case Advance(c, luck) => if c in s.tasks then Step(w, s, c, luck) else s
    case Collect(c) => if c in s.tasks && s.tasks[c].phase.Returned? then s.(tasks := s.tasks - {c}) else s
    case Kill(pid) =>
      s.(tasks := map c | c in s.tasks && c.pid != pid :: s.tasks[c],
         holder := if s.holder.Held? && s.holder.client.pid == pid then Free else s.holder)
    case PowerLoss(pick, garbage, temps) =>
      if pick >= |s.disk.vault| then s
      else s.(disk := Crash(s.disk, pick, garbage, temps), tasks := map[], holder := Free,
              hist := s.hist + [PowerLost(Flushed(s) + pick)])
  }

  function Run(w: World, s: State, actions: seq<Action>): State
    requires s.disk.vault != []
    ensures Run(w, s, actions).disk.vault != []
    decreases |actions|
  {
    if actions == [] then s
    else Next(w, Run(w, s, actions[..|actions| - 1]), actions[|actions| - 1])
  }

  /** How many commits the durable directory entry holds. */
  function Flushed(s: State): nat {
    if |s.disk.vault| <= |Trunk(s.hist)| + 1 then |Trunk(s.hist)| + 1 - |s.disk.vault| else 0
  }

  // ----- when an unreadable file status does no harm -----

  /** The answer or the saved map is right although the vault file was taken to be absent. */
  predicate Harmless(m: Plain, op: Op) {
    match op
    case Get(id) => id !in m
    case Set(id, _) => m.Keys <= {id}
    case Delete(id) => id !in m
  }

  /** Treating the file as absent gives the plain map's answer and effect exactly when harmless. */
  lemma HarmlessExactly(m: Plain, op: Op)
    ensures Harmless(m, op) <==> Respond(map[], op) == Respond(m, op) && (op.Set? ==> Effect(map[], op) == Effect(m, op))
  {
    if op.Set? && Effect(map[], op) == Effect(m, op) {
      assert forall id :: id in m ==> id in Effect(m, op) && id in Effect(map[], op);
    }
  }

  /** No step misreads the absence of the vault file to any effect. */
  predicate StatusReadable(w: World, s: State, a: Action) {
    a.Advance? && a.luck.Error? && a.c in s.tasks && s.tasks[a.c].phase == Looking && s.disk.vault != []
    && Visible(s.disk) != Missing
    ==> Harmless(Current(w, s.hist), s.tasks[a.c].op)
  }

  predicate AllReadable(w: World, s: State, actions: seq<Action>)
    requires s.disk.vault != []
    decreases |actions|
  {
    actions == [] ||
    (AllReadable(w, s, actions[..|actions| - 1]) &&
     StatusReadable(w, Run(w, s, actions[..|actions| - 1]), actions[|actions| - 1]))
  }

  // ----- the invariant -----

  predicate Matches(w: World, e: Entry, m: Plain) {
    match e
    case Missing => m == map[]
    case File(inode) => inode.synced && Open(w.key, inode.content) == Good(m)
  }

  predicate InSection(phase: Phase) {
    !phase.Waiting? && !phase.Returned?
  }

  /** The call has not yet taken effect. */
  predicate Pending(phase: Phase) {
    phase.Waiting? || phase.Looking? || phase.Reading? || phase.Opening? || phase.Sealing? ||
    phase.Creating? || phase.Writing? || phase.Syncing? || phase.Renaming?
  }

  /** Each directory entry since the last sync holds the map of one prefix of the commits. */
  predicate EntriesMatch(w: World, s: State) {
    var t := Trunk(s.hist);
    && 1 <= |s.disk.vault| <= |t| + 1
    && forall i :: 0 <= i < |s.disk.vault| ==> Matches(w, s.disk.vault[i], Replay(w.start, t[..Flushed(s) + i]))
  }

  predicate LockMatches(s: State) {
    && (forall c :: c in s.tasks && InSection(s.tasks[c].phase) ==> s.holder == Held(c))
    && (s.holder.Held? ==> s.holder.client in s.tasks && InSection(s.tasks[s.holder.client].phase))
  }

  predicate SavesOwn(w: World, s: State, task: Task, plain: Plain) {
    && Respond(Current(w, s.hist), task.op) == Stored
    && plain == Effect(Current(w, s.hist), task.op)
  }

  predicate ImageOk(w: World, s: State, task: Task, image: Content) {
    && Respond(Current(w, s.hist), task.op) == Stored
    && |image| == 3 && Open(w.key, image) == Good(Effect(Current(w, s.hist), task.op))
  }

  predicate JustCommitted(s: State, task: Task) {
    Trunk(s.hist) != [] && Trunk(s.hist)[|Trunk(s.hist)| - 1] == Commit(task.call, task.op)
  }

  /** What the lock holder knows in each phase. */
  predicate HolderOk(w: World, s: State, c: Client)
    requires c in s.tasks && s.disk.vault != []
  {
    var task, d := s.tasks[c], s.disk;
    match task.phase
    case Reading => Visible(d).File?
    case Opening(raw) => Visible(d).File? && raw == Visible(d).inode.content
    case Sealing(plain) => SavesOwn(w, s, task, plain)
    case Creating(image) => ImageOk(w, s, task, image)
    case Writing(image, done) =>
      ImageOk(w, s, task, image) && done < 3 && c.pid in d.temps && d.temps[c.pid].content == image[..done]
    case Syncing(image) => ImageOk(w, s, task, image) && c.pid in d.temps && d.temps[c.pid].content == image
    case Renaming(image) => ImageOk(w, s, task, image) && c.pid in d.temps && d.temps[c.pid] == Inode(image, true)
    case Flushing => JustCommitted(s, task)
    case Unlocking(outcome) => outcome == Answer(Stored) ==> JustCommitted(s, task) && |d.vault| == 1
    case _ => true
  }

  /** The outcome a call is already bound to return if nothing fails any more. */
  function Owed(phase: Phase): Outcome {
    if phase.Flushing? then Answer(Stored)
    else if phase.Unlocking? || phase.Returned? then phase.outcome
    else Failed
  }

  /** An answer is in the history, as an event later than the start of the call. */
  predicate OutcomeRecorded(s: State, task: Task) {
    Owed(task.phase).Answer? ==>
      exists i :: task.since <= i < |s.hist| && s.hist[i] == Done(task.call, task.op, Owed(task.phase).reply)
  }

  predicate CallsNumbered(s: State) {
    && (forall i :: 0 <= i < |s.hist| && s.hist[i].Done? ==> s.hist[i].call < s.next)
    && (forall i, j :: 0 <= i < j < |s.hist| && s.hist[i].Done? && s.hist[j].Done? ==> s.hist[i].call != s.hist[j].call)
    && (forall c :: c in s.tasks ==> s.tasks[c].call < s.next && s.tasks[c].since <= |s.hist|)
    && (forall c, e :: c in s.tasks && e in s.tasks && c != e ==> s.tasks[c].call != s.tasks[e].call)
    && (forall c, i :: c in s.tasks && Pending(s.tasks[c].phase) && 0 <= i < |s.hist| && s.hist[i].Done?
          ==> s.hist[i].call != s.tasks[c].call)
    && (forall c :: c in s.tasks ==> OutcomeRecorded(s, s.tasks[c]))
    && (forall c :: c in s.tasks && s.tasks[c].phase == Returned(Answer(Stored)) ==> s.tasks[c].call in s.acked)
  }

  predicate HeldBack(t: seq<Commit>, n: nat, call: nat) {
    exists i :: 0 <= i < n && i < |t| && t[i].call == call
  }

  predicate AckedFlushed(s: State) {
    forall call :: call in s.acked ==> HeldBack(Trunk(s.hist), Flushed(s), call)
  }

  predicate Inv(w: World, s: State) {
    && Legal(w, s.hist) && EntriesMatch(w, s) && LockMatches(s)
    && (s.holder.Held? ==> HolderOk(w, s, s.holder.client))
    && CallsNumbered(s) && AckedFlushed(s)
  }
}
