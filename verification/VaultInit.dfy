/**
 Any number of concurrent runs of `initialize` on one vault path and one key file, step by step,
 with errors and process kills anywhere, and with saves of other processes in between.
 */
module VaultInit {
  import opened Bytes
  import opened KeyFile
  import opened VaultDisk

  /** The key file's directory entry, with the run that created the file. */
  datatype KeyEntry = NoKey | KeyEntry(owner: nat, content: Bytes)

  /** What a run is about to do. */
  datatype Stage =
    | Checking                              // to test whether the vault file exists
    | Drawing                               // to draw a key and create the key file exclusively
    | Encoding(key: Bytes)                  // to write the encoded key
    | Ending(key: Bytes)                    // to write the newline
    | Settling(key: Bytes)                  // to sync the key file
    | Locking                               // to take the file lock
    | Rechecking                            // to test again, under the lock
    | Preparing                             // to read the key file, draw a nonce and encrypt
    | Creating(image: Content)
    | Writing(image: Content, done: nat)
    | Syncing(image: Content)
    | Renaming(image: Content)
    | Flushing
    | Cleaning                              // to remove the temporary file after an error
    | Unlocking(ok: bool)
    | Dropping                              // to remove the key file after an error
    | Finished(ok: bool)

  datatype Task = Task(run: nat, stage: Stage)

  /**
   `tainted` are the runs that met an error behind their own rename, or during whose ownership of the
   key file another process saved.
   */
  datatype State = State(disk: Disk, key: KeyEntry, holder: Holder, tasks: map<Client, Task>, next: nat,
                         succeeded: set<nat>, tainted: set<nat>)

  /** A step goes well, with the random choices it may need, or fails, leaving some debris behind. */
  datatype Luck = Fine(key: Bytes, nonce: nat) | Error(debris: Bytes, synced: bool)

  /** `Save` is a set or delete of another process, from taking the lock to releasing it, that succeeds. */
  datatype Action =
    | Start(c: Client)
    | Advance(c: Client, luck: Luck)
    | Kill(pid: nat)
    | Save(plain: Plain, nonce: nat)

  function Goto(s: State, c: Client, stage: Stage): State
    requires c in s.tasks
  {
    s.(tasks := s.tasks[c := s.tasks[c].(stage := stage)])
  }

  function Extend(k: KeyEntry, more: Bytes): KeyEntry {
    match k
    case NoKey => NoKey
    case KeyEntry(owner, content) => KeyEntry(owner, content + more)
  }

  function KeyRead(k: KeyEntry): KeyResult {
    match k
    case NoKey => NotBase64
    case KeyEntry(_, content) => ReadKey(content)
  }

  function Step(s: State, c: Client, luck: Luck): State
    requires c in s.tasks && s.disk.vault != []
  {
    var task, d := s.tasks[c], s.disk;
    match task.stage
    case Checking =>
      if luck.Fine? && Visible(d) != Missing then Goto(s, c, Finished(false)) else Goto(s, c, Drawing)
    case Drawing =>
      if luck.Error? || |luck.key| != KEY_BYTES || s.key != NoKey then Goto(s, c, Finished(false))
      else Goto(s.(key := KeyEntry(task.run, [])), c, Encoding(luck.key))
    case Encoding(key) =>
      if luck.Error? then Goto(s.(key := Extend(s.key, luck.debris)), c, Finished(false))
      else Goto(s.(key := Extend(s.key, Base64.Encode(key))), c, Ending(key))
    case Ending(key) =>
      if luck.Error? then Goto(s, c, Finished(false)) else Goto(s.(key := Extend(s.key, [NEWLINE])), c, Settling(key))
    case Settling(_) => if luck.Error? then Goto(s, c, Finished(false)) else Goto(s, c, Locking)
    case Locking =>
      if luck.Error? then Goto(s, c, Dropping)
      else if s.holder != Free then s
      else Goto(s.(holder := Held(c)), c, Rechecking)
    case Rechecking =>
      if luck.Fine? && Visible(d) != Missing then Goto(s, c, Unlocking(false)) else Goto(s, c, Preparing)
    case Preparing =>
      if luck.Error? || !KeyRead(s.key).Key? then Goto(s, c, Unlocking(false))
      else Goto(s, c, Creating(Image(KeyRead(s.key).bytes, luck.nonce, map[])))
    case Creating(image) =>
      if luck.Error? || c.pid in d.temps then Goto(s, c, Cleaning)
      else Goto(s.(disk := CreateTemp(d, c.pid)), c, Writing(image, 0))
    case Writing(image, done) =>
      if c.pid !in d.temps || done >= |image| then Goto(s, c, Cleaning)
      else if luck.Error? then Goto(s.(disk := if luck.synced then Append(d, c.pid, Torn) else d), c, Cleaning)
      else Goto(s.(disk := Append(d, c.pid, image[done])), c,
                if done + 1 < |image| then Writing(image, done + 1) else Syncing(image))
    case Syncing(image) =>
      if luck.Error? || c.pid !in d.temps then Goto(s, c, Cleaning)
      else Goto(s.(disk := SyncTemp(d, c.pid)), c, Renaming(image))
    case Renaming(_) =>
      if luck.Error? || c.pid !in d.temps then Goto(s, c, Cleaning)
      else Goto(s.(disk := RenameTemp(d, c.pid)), c, Flushing)
    case Flushing =>
      if luck.Error? then Goto(s.(tainted := s.tainted + {task.run}), c, Cleaning)
      else Goto(s.(disk := SyncDirectory(d, |d.vault| - 1)), c, Unlocking(true))
    case Cleaning =>
      Goto(if luck.Error? then s else s.(disk := RemoveTemp(d, c.pid)), c, Unlocking(false))
    case Unlocking(ok) =>
      if ok && luck.Fine? then
        Goto(s.(holder := Free, succeeded := s.succeeded + {task.run}), c, Finished(true))
      else Goto(s.(holder := Free, tainted := if ok then s.tainted + {task.run} else s.tainted), c, Dropping)
    case Dropping => Goto(if luck.Error? then s else s.(key := NoKey), c, Finished(false))
    case Finished(_) => s
  }

  function Next(s: State, a: Action): State
    requires s.disk.vault != []
    ensures Next(s, a).disk.vault != []
  {
    match a
    case Start(c) =>
      if c in s.tasks && !s.tasks[c].stage.Finished? then s
      else s.(tasks := s.tasks[c := Task(s.next, Checking)], next := s.next + 1)
    case Advance(c, luck) => if c in s.tasks then Step(s, c, luck) else s
    case Kill(pid) =>
      s.(tasks := map c | c in s.tasks && c.pid != pid :: s.tasks[c],
         holder := if s.holder.Held? && s.holder.client.pid == pid then Free else s.holder)
    case Save(plain, nonce) => if CanSave(s) then Saved(s, plain, nonce) else s
  }

  /** The lock is free, the key file holds a key, and it opens the vault if there is one. */
  predicate CanSave(s: State)
    requires s.disk.vault != []
  {
    s.holder == Free && KeyRead(s.key).Key? && KeyOpensVault(s)
  }

  /** The vault is now this map sealed under the key on file. */
  function Saved(s: State, plain: Plain, nonce: nat): State
    requires KeyRead(s.key).Key?
  {
    s.(disk := s.disk.(vault := [File(Inode(Image(KeyRead(s.key).bytes, nonce, plain), true))]),
       tainted := s.tainted + set c | c in s.tasks && Owns(s.tasks[c].stage) :: s.tasks[c].run)
  }

  function Run(s: State, actions: seq<Action>): State
    requires s.disk.vault != []
    ensures Run(s, actions).disk.vault != []
    decreases |actions|
  {
    if actions == [] then s else Next(Run(s, actions[..|actions| - 1]), actions[|actions| - 1])
  }

  // ----- the hypothesis -----

  /** No key file is removed by a run under which a vault has appeared. */
  predicate Spares(s: State, a: Action) {
    a.Advance? && a.luck.Fine? && a.c in s.tasks && s.tasks[a.c].stage.Dropping? ==> s.tasks[a.c].run !in s.tainted
  }

  predicate AllSpare(s: State, actions: seq<Action>)
    requires s.disk.vault != []
    decreases |actions|
  {
    actions == [] ||
    (AllSpare(s, actions[..|actions| - 1]) && Spares(Run(s, actions[..|actions| - 1]), actions[|actions| - 1]))
  }

  /** No failure is reported between the rename and the end of a run, and nobody else writes. */
  predicate CleanEnd(s: State, a: Action) {
    && !a.Save?
    && (a.Advance? && a.luck.Error? && a.c in s.tasks ==>
          !s.tasks[a.c].stage.Flushing? && s.tasks[a.c].stage != Unlocking(true))
  }

  predicate AllCleanEnd(s: State, actions: seq<Action>)
    requires s.disk.vault != []
    decreases |actions|
  {
    actions == [] ||
    (AllCleanEnd(s, actions[..|actions| - 1]) && CleanEnd(Run(s, actions[..|actions| - 1]), actions[|actions| - 1]))
  }

  // ----- the invariant -----

  /** The run has created the key file and will remove it if it fails. */
  predicate Owns(stage: Stage) {
    !stage.Checking? && !stage.Drawing? && !stage.Finished?
  }

  predicate InSection(stage: Stage) {
    Owns(stage) && !stage.Encoding? && !stage.Ending? && !stage.Settling? && !stage.Locking? && !stage.Dropping?
  }

  /** The run has renamed its image over the vault file. */
  predicate AfterRename(stage: Stage) {
    stage.Flushing? || stage == Unlocking(true)
  }

  /** The key file holds the key that opens the vault file. */
  predicate KeyOpensVault(s: State)
    requires s.disk.vault != []
  {
    Visible(s.disk).File? ==>
      KeyRead(s.key).Key? && Open(KeyRead(s.key).bytes, Visible(s.disk).inode.content).Good?
  }

  predicate Owned(s: State) {
    && (forall c :: c in s.tasks && Owns(s.tasks[c].stage) ==> s.key.KeyEntry? && s.key.owner == s.tasks[c].run)
    && (forall c, e :: c in s.tasks && e in s.tasks && c != e ==> s.tasks[c].run != s.tasks[e].run)
    && (forall c :: c in s.tasks ==> s.tasks[c].run < s.next)
    && (forall run :: run in s.tainted ==> run < s.next)
  }

  predicate LockMatches(s: State) {
    && (forall c :: c in s.tasks && InSection(s.tasks[c].stage) ==> s.holder == Held(c))
    && (s.holder.Held? ==> s.holder.client in s.tasks && InSection(s.tasks[s.holder.client].stage))
  }

  /** What each stage knows of the key file, the vault file and its temporary file. */
  predicate StageOk(s: State, c: Client)
    requires c in s.tasks && s.disk.vault != []
  {
    var stage, d := s.tasks[c].stage, s.disk;
    && (Owns(stage) ==> (Visible(d).File? <==> AfterRename(stage) || s.tasks[c].run in s.tainted))
    && match stage
       case Checking => s.tasks[c].run !in s.tainted
       case Drawing => s.tasks[c].run !in s.tainted
       case Encoding(key) => |key| == KEY_BYTES && s.key.KeyEntry? && s.key.content == []
       case Ending(key) => |key| == KEY_BYTES && s.key.KeyEntry? && s.key.content == Base64.Encode(key)
       case Settling(_) => KeyRead(s.key).Key?
       case Locking => KeyRead(s.key).Key?
       case Rechecking => KeyRead(s.key).Key?
       case Preparing => KeyRead(s.key).Key?
       case Creating(image) => ImageOk(s, image)
       case Writing(image, done) =>
         ImageOk(s, image) && done < 3 && c.pid in d.temps && d.temps[c.pid].content == image[..done]
       case Syncing(image) => ImageOk(s, image) && c.pid in d.temps && d.temps[c.pid].content == image
       case Renaming(image) => ImageOk(s, image) && c.pid in d.temps && d.temps[c.pid] == Inode(image, true)
       case _ => true
  }

  predicate ImageOk(s: State, image: Content) {
    |image| == 3 && KeyRead(s.key).Key? && Open(KeyRead(s.key).bytes, image) == Good(map[])
  }

  /** Runs that returned success: at most one, and the key file is still its own. */
  predicate SuccessUnique(s: State)
    requires s.disk.vault != []
  {
    forall run :: run in s.succeeded ==> run < s.next && Visible(s.disk).File? && s.key.KeyEntry? && s.key.owner == run
  }

  predicate Inv(s: State) {
    && s.disk.vault != [] && Owned(s) && LockMatches(s) && KeyOpensVault(s) && SuccessUnique(s)
    && forall c :: c in s.tasks ==> StageOk(s, c)
  }

  /** No vault yet and no run under way; a key file or temporary files may be left from before. */
  predicate Initial(s: State) {
    && s.disk.vault == [Missing] && s.tasks == map[] && s.holder == Free && s.succeeded == {} && s.tainted == {}
  }

  // ----- every step keeps the invariant -----

  lemma UnownedStep(s: State, c: Client, luck: Luck)
    requires Inv(s) && c in s.tasks && !Owns(s.tasks[c].stage)
    ensures Inv(Step(s, c, luck))
  {
    var s' := Step(s, c, luck);
    if s'.key == s.key {
      var stage := s'.tasks[c].stage;
      assert s' == Goto(s, c, stage) && !Owns(stage);
      assert stage.Checking? || stage.Drawing? ==> s.tasks[c].stage.Checking? || s.tasks[c].stage.Drawing?;
      hide *;
      StaysUnowned(s, c, stage);
    } else {
      assert s' == Goto(s.(key := KeyEntry(s.tasks[c].run, [])), c, Encoding(luck.key)) && |luck.key| == KEY_BYTES;
      assert s.key == NoKey && s.tasks[c].stage.Drawing?;
      hide *;
      Draws(s, c, luck.key);
    }
  }

  lemma StaysUnowned(s: State, c: Client, stage: Stage)
    requires Inv(s) && c in s.tasks && !Owns(s.tasks[c].stage) && !Owns(stage)
    requires stage.Checking? || stage.Drawing? ==> s.tasks[c].stage.Checking? || s.tasks[c].stage.Drawing?
    ensures Inv(Goto(s, c, stage))
  {
    hide StageOk, KeyOpensVault, SuccessUnique, LockMatches;
    var s' := Goto(s, c, stage);
    AllStay(s, c, stage);
    LockKept(s, s', c);
    assert KeyOpensVault(s') && SuccessUnique(s') by { SameFiles(s, s'); }
  }

  lemma AllStay(s: State, c: Client, stage: Stage)
    requires c in s.tasks && s.disk.vault != [] && !Owns(stage)
    requires stage.Checking? || stage.Drawing? ==> s.tasks[c].stage.Checking? || s.tasks[c].stage.Drawing?
    requires forall e :: e in s.tasks ==> StageOk(s, e)
    ensures forall e :: e in s.tasks ==> StageOk(Goto(s, c, stage), e)
  {
    hide KeyRead, Open, ImageOk;
    assert StageOk(s, c);
    forall e | e in s.tasks && e != c ensures StageOk(Goto(s, c, stage), e) {
      StageStays(s, c, stage, e);
    }
  }

  lemma StageStays(s: State, c: Client, stage: Stage, e: Client)
    requires c in s.tasks && e in s.tasks && e != c && s.disk.vault != [] && StageOk(s, e)
    ensures StageOk(Goto(s, c, stage), e)
  {
    hide KeyRead, Open;
  }

  lemma SameFiles(s: State, s': State)
    requires s.disk.vault != [] && KeyOpensVault(s) && SuccessUnique(s)
    requires s'.disk == s.disk && s'.key == s.key && s'.succeeded == s.succeeded && s'.next == s.next
    ensures KeyOpensVault(s') && SuccessUnique(s')
  {
    hide KeyRead, Open;
  }

  /** Exclusive creation: no key file means that no call owns one and that there is no vault. */
  lemma Draws(s: State, c: Client, key: Bytes)
    requires Inv(s) && c in s.tasks && s.tasks[c].stage.Drawing? && s.key == NoKey && |key| == KEY_BYTES
    ensures Inv(Goto(s.(key := KeyEntry(s.tasks[c].run, [])), c, Encoding(key)))
  {
    hide Open, Base64.Encode, ImageOk;
    var s' := Goto(s.(key := KeyEntry(s.tasks[c].run, [])), c, Encoding(key));
    assert forall e :: e in s.tasks ==> !Owns(s.tasks[e].stage);
    assert StageOk(s, c);
    assert Visible(s.disk) == Missing;
    assert StageOk(s', c);
    forall e | e in s'.tasks && e != c ensures StageOk(s', e) {
      assert StageOk(s, e) && !Owns(s'.tasks[e].stage);
    }
    hide StageOk;
  }

  /** While one call owns the key file, no other does, so its steps disturb nobody. */
  lemma OthersUndisturbed(s: State, s': State, c: Client)
    requires Inv(s) && c in s.tasks && Owns(s.tasks[c].stage) && s'.disk.vault != []
    requires s'.tasks.Keys == s.tasks.Keys && forall e :: e in s.tasks && e != c ==> s'.tasks[e] == s.tasks[e]
    requires s'.tainted <= s.tainted + {s.tasks[c].run}
    requires StageOk(s', c)
    ensures forall e :: e in s'.tasks ==> StageOk(s', e)
  {
    hide KeyRead, Open, Base64.Encode;
    forall e | e in s'.tasks && e != c ensures StageOk(s', e) {
      assert StageOk(s, e) && s.tasks[e].run != s.tasks[c].run;
      assert !Owns(s.tasks[e].stage);
    }
  }

  /** The owner `c` alone acts: what its step must keep for the invariant to hold again. */
  lemma OwnerActs(s: State, s': State, c: Client)
    requires Inv(s) && c in s.tasks && Owns(s.tasks[c].stage) && s'.disk.vault != [] && s'.next == s.next
    requires s'.tasks.Keys == s.tasks.Keys && (forall e :: e in s.tasks && e != c ==> s'.tasks[e] == s.tasks[e])
    requires s'.tasks[c].run == s.tasks[c].run && StageOk(s', c) && s'.tainted <= s.tainted + {s.tasks[c].run}
    requires Owns(s'.tasks[c].stage) ==> s'.key.KeyEntry? && s'.key.owner == s.key.owner
    requires if InSection(s'.tasks[c].stage) then s'.holder == Held(c)
             else s'.holder == (if InSection(s.tasks[c].stage) then Free else s.holder)
    requires InSection(s'.tasks[c].stage) && !InSection(s.tasks[c].stage) ==> s.holder == Free
    requires KeyOpensVault(s') && SuccessUnique(s')
    ensures Inv(s')
  {
    OthersUndisturbed(s, s', c);
    hide StageOk, KeyOpensVault, SuccessUnique;
    OwnershipKept(s, s', c);
    LockKept(s, s', c);
  }

  lemma OwnershipKept(s: State, s': State, c: Client)
    requires Owned(s) && c in s.tasks && Owns(s.tasks[c].stage) && s'.next == s.next
    requires s'.tasks.Keys == s.tasks.Keys && (forall e :: e in s.tasks && e != c ==> s'.tasks[e] == s.tasks[e])
    requires s'.tasks[c].run == s.tasks[c].run && s'.tainted <= s.tainted + {s.tasks[c].run}
    requires Owns(s'.tasks[c].stage) ==> s'.key.KeyEntry? && s'.key.owner == s.key.owner
    ensures Owned(s')
  {
    hide Owns;
  }

  lemma LockKept(s: State, s': State, c: Client)
    requires LockMatches(s) && c in s.tasks
    requires s'.tasks.Keys == s.tasks.Keys && (forall e :: e in s.tasks && e != c ==> s'.tasks[e] == s.tasks[e])
    requires if InSection(s'.tasks[c].stage) then s'.holder == Held(c)
             else s'.holder == (if InSection(s.tasks[c].stage) then Free else s.holder)
    requires InSection(s'.tasks[c].stage) && !InSection(s.tasks[c].stage) ==> s.holder == Free
    ensures LockMatches(s')
  {
    hide InSection;
  }

  /** The owner moves on to another stage of which `StageOk` holds, keeping vault and key file. */
  lemma OwnerMoves(s: State, c: Client, temps: map<nat, Inode>, key: KeyEntry, stage: Stage)
    requires Inv(s) && c in s.tasks && Owns(s.tasks[c].stage)
    requires InSection(stage) <==> InSection(s.tasks[c].stage)
    requires s.key.KeyEntry? && key.KeyEntry? && key.owner == s.key.owner
    requires Visible(s.disk).File? ==> KeyRead(key) == KeyRead(s.key)
    requires StageOk(Goto(s.(disk := s.disk.(temps := temps), key := key), c, stage), c)
    ensures Inv(Goto(s.(disk := s.disk.(temps := temps), key := key), c, stage))
  {
    var s' := Goto(s.(disk := s.disk.(temps := temps), key := key), c, stage);
    OwnerHolds(s, c);
    hide Inv, StageOk, KeyRead, Open, Owns, InSection;
    OwnerActs(s, s', c);
  }

  lemma OwnerHolds(s: State, c: Client)
    requires Inv(s) && c in s.tasks && Owns(s.tasks[c].stage)
    ensures s.disk.vault != [] && KeyOpensVault(s) && SuccessUnique(s) && StageOk(s, c)
    ensures s.key.KeyEntry? && s.key.owner == s.tasks[c].run && s.tasks[c].run < s.next
    ensures InSection(s.tasks[c].stage) ==> s.holder == Held(c)
  {
  }

  lemma KeyStages(s: State, c: Client, luck: Luck)
    requires Inv(s) && c in s.tasks
    requires s.tasks[c].stage.Encoding? || s.tasks[c].stage.Ending? || s.tasks[c].stage.Settling?
    ensures Inv(Step(s, c, luck))
  {
    OwnerFacts(s, c);
    if s.tasks[c].stage.Encoding? {
      EncodeStage(s, c, luck);
    } else if s.tasks[c].stage.Ending? {
      EndStage(s, c, luck);
    } else {
      hide Base64.Encode, ReadKey, Open, Inv;
      OwnerMoves(s, c, s.disk.temps, s.key, if luck.Error? then Finished(false) else Locking);
    }
  }

  /** What is known of an owner, and updates that change nothing. */
  lemma OwnerFacts(s: State, c: Client)
    requires Inv(s) && c in s.tasks && Owns(s.tasks[c].stage)
    ensures s.disk.vault != [] && StageOk(s, c) && s.key.KeyEntry?
    ensures s.disk.(temps := s.disk.temps) == s.disk && s.(disk := s.disk, key := s.key) == s
  {
  }

  /** An empty key file opens nothing, so there is no vault yet. */
  lemma EmptyKeyFile(s: State)
    requires s.disk.vault != [] && KeyOpensVault(s) && s.key.KeyEntry? && s.key.content == []
    ensures Visible(s.disk) == Missing
  {
    assert Base64.Decode([]) == Base64.Valid([]);
    assert Trim([]) == [];
  }

  lemma EncodeStage(s: State, c: Client, luck: Luck)
    requires Inv(s) && c in s.tasks && s.tasks[c].stage.Encoding?
    ensures Inv(Step(s, c, luck))
  {
    hide Base64.Encode, KeyRead, Open, Inv;
    OwnerFacts(s, c);
    OwnerHolds(s, c);
    EmptyKeyFile(s);
    var encoded := Base64.Encode(s.tasks[c].stage.key);
    assert [] + encoded == encoded;
    if luck.Error? {
      OwnerMoves(s, c, s.disk.temps, Extend(s.key, luck.debris), Finished(false));
    } else {
      OwnerMoves(s, c, s.disk.temps, Extend(s.key, encoded), Ending(s.tasks[c].stage.key));
    }
  }

  lemma EndStage(s: State, c: Client, luck: Luck)
    requires Inv(s) && c in s.tasks && s.tasks[c].stage.Ending?
    ensures Inv(Step(s, c, luck))
  {
    hide Base64.Encode, KeyRead, Open, Inv, ImageOk;
    OwnerFacts(s, c);
    var key := s.tasks[c].stage.key;
    if luck.Error? {
      OwnerMoves(s, c, s.disk.temps, s.key, Finished(false));
    } else {
      KeyFileAfter(s, c, key);
      KeyFileBefore(s, c, key);
      OwnerMoves(s, c, s.disk.temps, Extend(s.key, [NEWLINE]), Settling(key));
    }
  }

  lemma KeyReads(key: Bytes)
    requires |key| == KEY_BYTES
    ensures ReadKey(Base64.Encode(key) + [NEWLINE]) == Key(key) && ReadKey(Base64.Encode(key)) == Key(key)
  {
    hide Base64.Encode, ReadKey;
    KeyFileRoundTrip(key, [], []);
    assert [] + Base64.Encode(key) + [] == Base64.Encode(key);
    assert KeyFileFor(key) == Base64.Encode(key) + [NEWLINE];
  }

  /** Without its newline the key file already reads as the key. */
  lemma KeyFileBefore(s: State, c: Client, key: Bytes)
    requires c in s.tasks && s.disk.vault != [] && s.tasks[c].stage == Ending(key) && StageOk(s, c)
    ensures KeyRead(s.key) == Key(key)
  {
    KeyReads(key);
    hide Base64.Encode, ReadKey;
  }

  lemma LockStage(s: State, c: Client, luck: Luck)
    requires Inv(s) && c in s.tasks && s.tasks[c].stage.Locking?
    ensures Inv(Step(s, c, luck))
  {
    hide Inv, KeyRead, Open, ImageOk, Extend;
    OwnerHolds(s, c);
    OwnerActs(s, Step(s, c, luck), c);
  }

  lemma UnlockStage(s: State, c: Client, luck: Luck)
    requires Inv(s) && c in s.tasks && s.tasks[c].stage.Unlocking?
    ensures Inv(Step(s, c, luck))
  {
    hide Inv, KeyRead, Open, ImageOk, Extend;
    OwnerHolds(s, c);
    OwnerActs(s, Step(s, c, luck), c);
  }

  lemma DropStage(s: State, c: Client, luck: Luck)
    requires Inv(s) && c in s.tasks && s.tasks[c].stage.Dropping? && Spares(s, Advance(c, luck))
    ensures Inv(Step(s, c, luck))
  {
    hide Inv, KeyRead, Open, ImageOk, Extend;
    OwnerHolds(s, c);
    OwnerActs(s, Step(s, c, luck), c);
  }

  lemma RecheckStage(s: State, c: Client, luck: Luck)
    requires Inv(s) && c in s.tasks && s.tasks[c].stage.Rechecking?
    ensures Inv(Step(s, c, luck))
  {
    hide Inv, KeyRead, Open;
    OwnerFacts(s, c);
    OwnerMoves(s, c, s.disk.temps, s.key,
               if luck.Fine? && Visible(s.disk) != Missing then Unlocking(false) else Preparing);
  }

  lemma PrepareStage(s: State, c: Client, luck: Luck)
    requires Inv(s) && c in s.tasks && s.tasks[c].stage.Preparing?
    ensures Inv(Step(s, c, luck))
  {
    hide Inv, KeyRead, Open, Image;
    OwnerFacts(s, c);
    if luck.Error? {
      OwnerMoves(s, c, s.disk.temps, s.key, Unlocking(false));
    } else {
      ImageOpens(KeyRead(s.key).bytes, luck.nonce);
      OwnerMoves(s, c, s.disk.temps, s.key, Creating(Image(KeyRead(s.key).bytes, luck.nonce, map[])));
    }
  }

  lemma CreateStage(s: State, c: Client, luck: Luck)
    requires Inv(s) && c in s.tasks && s.tasks[c].stage.Creating?
    ensures Inv(Step(s, c, luck))
  {
    var d := s.disk;
    OwnerFacts(s, c);
    hide Inv, ImageOk;
    if luck.Error? || c.pid in d.temps {
      OwnerMoves(s, c, d.temps, s.key, Cleaning);
    } else {
      OwnerMoves(s, c, CreateTemp(d, c.pid).temps, s.key, Writing(s.tasks[c].stage.image, 0));
    }
  }

  lemma SyncStage(s: State, c: Client, luck: Luck)
    requires Inv(s) && c in s.tasks && s.tasks[c].stage.Syncing?
    ensures Inv(Step(s, c, luck))
  {
    var d := s.disk;
    OwnerFacts(s, c);
    hide Inv, ImageOk;
    if luck.Error? {
      OwnerMoves(s, c, d.temps, s.key, Cleaning);
    } else {
      OwnerMoves(s, c, SyncTemp(d, c.pid).temps, s.key, Renaming(s.tasks[c].stage.image));
    }
  }

  lemma CleanStage(s: State, c: Client, luck: Luck)
    requires Inv(s) && c in s.tasks && s.tasks[c].stage.Cleaning?
    ensures Inv(Step(s, c, luck))
  {
    var d := s.disk;
    OwnerFacts(s, c);
    hide Inv, ImageOk;
    OwnerMoves(s, c, if luck.Error? then d.temps else RemoveTemp(d, c.pid).temps, s.key, Unlocking(false));
  }

  lemma ImageOpens(key: Bytes, nonce: nat)
    ensures |Image(key, nonce, map[])| == 3 && Open(key, Image(key, nonce, map[])) == Good(map[])
  {
  }

  lemma WriteStage(s: State, c: Client, luck: Luck)
    requires Inv(s) && c in s.tasks && s.tasks[c].stage.Writing?
    ensures Inv(Step(s, c, luck))
  {
    var stage, d := s.tasks[c].stage, s.disk;
    OwnerFacts(s, c);
    hide Inv, KeyRead, Open;
    var image, done := stage.image, stage.done;
    if luck.Error? {
      hide ImageOk;
      OwnerMoves(s, c, (if luck.synced then Append(d, c.pid, Torn) else d).temps, s.key, Cleaning);
    } else {
      Grown(image, done);
      Written(s, c, image, done);
      hide ImageOk, StageOk;
      OwnerMoves(s, c, Append(d, c.pid, image[done]).temps, s.key, AfterWrite(image, done));
    }
  }

  function AfterWrite(image: Content, done: nat): Stage {
    if done + 1 < |image| then Writing(image, done + 1) else Syncing(image)
  }

  lemma Grown(image: Content, done: nat)
    requires done < |image|
    ensures image[..done] + [image[done]] == image[..done + 1]
    ensures image[..|image|] == image
  {
  }

  lemma Written(s: State, c: Client, image: Content, done: nat)
    requires c in s.tasks && s.disk.vault != [] && StageOk(s, c) && s.tasks[c].stage == Writing(image, done)
    requires done < |image| && image[..done] + [image[done]] == image[..done + 1]
    ensures StageOk(Goto(s.(disk := s.disk.(temps := Append(s.disk, c.pid, image[done]).temps), key := s.key),
                         c, AfterWrite(image, done)), c)
  {
    hide KeyRead, Open;
    assert image[..3] == image;
  }

  /** The rename makes the vault appear, sealed under the key in the key file. */
  lemma RenameStage(s: State, c: Client, luck: Luck)
    requires Inv(s) && c in s.tasks && s.tasks[c].stage.Renaming?
    ensures Inv(Step(s, c, luck))
  {
    hide Inv, KeyRead, Open, Extend;
    OwnerFacts(s, c);
    OwnerHolds(s, c);
    if luck.Error? {
      hide ImageOk;
      OwnerMoves(s, c, s.disk.temps, s.key, Cleaning);
    } else {
      var s' := Goto(s.(disk := RenameTemp(s.disk, c.pid)), c, Flushing);
      assert Step(s, c, luck) == s' && s'.key == s.key;
      assert StageOk(s', c) && KeyOpensVault(s');
      OwnerActs(s, s', c);
    }
  }

  lemma FlushStage(s: State, c: Client, luck: Luck)
    requires Inv(s) && c in s.tasks && s.tasks[c].stage.Flushing?
    ensures Inv(Step(s, c, luck))
  {
    var s' := Step(s, c, luck);
    OwnerHolds(s, c);
    hide Inv, KeyRead, Open, ImageOk;
    assert Visible(s'.disk) == Visible(s.disk) && s'.key == s.key && StageOk(s', c);
    OwnerActs(s, s', c);
  }

  lemma StepKeeps(s: State, a: Action)
    requires Inv(s) && Spares(s, a)
    ensures Inv(Next(s, a))
  {
    match a
    case Start(c) => ComeAndGo(s, a);
    case Kill(pid) => ComeAndGo(s, a);
    case Save(plain, nonce) => if CanSave(s) { SaveStage(s, plain, nonce); }
    case Advance(c, luck) =>
      if c in s.tasks {
        hide Inv, StageOk;
        match s.tasks[c].stage
        case Checking => UnownedStep(s, c, luck);
        case Drawing => UnownedStep(s, c, luck);
        case Finished(_) => UnownedStep(s, c, luck);
        case Encoding(_) => KeyStages(s, c, luck);
        case Ending(_) => KeyStages(s, c, luck);
        case Settling(_) => KeyStages(s, c, luck);
        case Locking => LockStage(s, c, luck);
        case Unlocking(_) => UnlockStage(s, c, luck);
        case Dropping => DropStage(s, c, luck);
        case Rechecking => RecheckStage(s, c, luck);
        case Preparing => PrepareStage(s, c, luck);
        case Creating(_) => CreateStage(s, c, luck);
        case Syncing(_) => SyncStage(s, c, luck);
        case Cleaning => CleanStage(s, c, luck);
        case Writing(_, _) => WriteStage(s, c, luck);
        case Renaming(_) => RenameStage(s, c, luck);
        case Flushing => FlushStage(s, c, luck);
      }
  }

  /** Another process's save: the lock is free, so no run is in its section. */
  lemma SaveStage(s: State, plain: Plain, nonce: nat)
    requires Inv(s) && CanSave(s)
    ensures Inv(Saved(s, plain, nonce))
  {
    hide KeyRead, ImageOk, Base64.Encode, Open, Image;
    var s' := Saved(s, plain, nonce);
    SavedOpens(KeyRead(s.key).bytes, nonce, plain);
    forall e | e in s'.tasks ensures StageOk(s', e) {
      assert StageOk(s, e) && !InSection(s.tasks[e].stage);
    }
    hide StageOk;
    SavedTaint(s, plain, nonce);
  }

  lemma SavedOpens(key: Bytes, nonce: nat, plain: Plain)
    ensures Open(key, Image(key, nonce, plain)) == Good(plain)
  {
  }

  lemma SavedTaint(s: State, plain: Plain, nonce: nat)
    requires Owned(s) && LockMatches(s) && KeyRead(s.key).Key?
    ensures Owned(Saved(s, plain, nonce)) && LockMatches(Saved(s, plain, nonce))
  {
    hide KeyRead, Owns, InSection;
  }

  lemma ComeAndGo(s: State, a: Action)
    requires Inv(s) && (a.Start? || a.Kill?)
    ensures Inv(Next(s, a))
  {
    var s' := Next(s, a);
    assert s'.disk == s.disk && s'.key == s.key && s'.succeeded == s.succeeded && s.next <= s'.next && s'.tainted == s.tainted;
    hide Open, ImageOk;
    forall e | e in s'.tasks ensures StageOk(s', e) {
      if e in s.tasks { assert StageOk(s, e); }
    }
    hide StageOk, KeyOpensVault, KeyRead;
    TasksCount(s, a);
    hide Next, Owned, LockMatches;
  }

  lemma TasksCount(s: State, a: Action)
    requires Owned(s) && LockMatches(s) && (a.Start? || a.Kill?) && s.disk.vault != []
    ensures Owned(Next(s, a)) && LockMatches(Next(s, a))
  {
  }

  lemma {:induction false} RunKeeps(s: State, actions: seq<Action>)
    requires Inv(s) && AllSpare(s, actions) && s.disk.vault != []
    ensures Inv(Run(s, actions))
    decreases |actions|
  {
    hide Inv, Next, Spares;
    if actions != [] {
      var front := actions[..|actions| - 1];
      RunKeeps(s, front);
      StepKeeps(Run(s, front), actions[|actions| - 1]);
    }
  }

  /**
   In every interleaving, as long as no run removes a key file that a vault has appeared under: at most
   one run returns success, and whenever the vault file exists the key file holds the key that opens it.
   */
  lemma {:induction false} InitializeSafe(s0: State, actions: seq<Action>, run: nat, other: nat)
    requires Initial(s0) && AllSpare(s0, actions)
    ensures var s := Run(s0, actions);
            && (run in s.succeeded && other in s.succeeded ==> run == other)
            && KeyOpensVault(s)
            && (run in s.succeeded ==> Visible(s.disk).File?)
  {
    InitialInv(s0);
    RunKeeps(s0, actions);
    hide Run, AllSpare, KeyRead, Open, StageOk;
  }

  /** Without another writer and without a failure behind a rename, no run is ever tainted. */
  lemma {:induction false} CleanSpares(s0: State, actions: seq<Action>)
    requires Initial(s0) && AllCleanEnd(s0, actions)
    ensures Run(s0, actions).tainted == {} && AllSpare(s0, actions)
    decreases |actions|
  {
    hide Next, CleanEnd;
    if actions != [] {
      var front := actions[..|actions| - 1];
      CleanSpares(s0, front);
      CleanUntainted(Run(s0, front), actions[|actions| - 1]);
    }
  }

  lemma CleanUntainted(s: State, a: Action)
    requires s.disk.vault != [] && CleanEnd(s, a)
    ensures Next(s, a).tainted == s.tainted
  {
    hide KeyRead, Extend, Base64.Encode, Visible;
  }

  lemma {:induction false} SparePrefix(s: State, actions: seq<Action>, n: nat)
    requires s.disk.vault != [] && AllSpare(s, actions) && n <= |actions|
    ensures AllSpare(s, actions[..n])
    decreases |actions|
  {
    if n == |actions| {
      assert actions[..n] == actions;
    } else {
      SparePrefix(s, actions[..|actions| - 1], n);
      assert actions[..|actions| - 1][..n] == actions[..n];
    }
  }

  /** The first removal by a tainted run leaves a vault without its key. */
  lemma {:induction false} RemovalOrphans(s0: State, actions: seq<Action>) returns (n: nat)
    requires Initial(s0) && !AllSpare(s0, actions)
    ensures n <= |actions| && !KeyOpensVault(Run(s0, actions[..n]))
    decreases |actions|
  {
    hide Inv, Next, Spares, KeyOpensVault;
    var front, a := actions[..|actions| - 1], actions[|actions| - 1];
    if AllSpare(s0, front) {
      n := |actions|;
      assert actions[..n] == actions;
      InitialInv(s0);
      RunKeeps(s0, front);
      TaintedRemoval(Run(s0, front), a);
    } else {
      n := RemovalOrphans(s0, front);
      assert front[..n] == actions[..n];
    }
  }

  lemma TaintedRemoval(s: State, a: Action)
    requires Inv(s) && s.disk.vault != [] && !Spares(s, a)
    ensures !KeyOpensVault(Next(s, a))
  {
    hide Inv, Open, KeyRead, Base64.Encode;
    OwnerHolds(s, a.c);
    NoKeyReads();
  }

  /**
   In every interleaving: the key file holds the key of the vault in every state of the run if and only
   if no run removes it that met an error behind its own rename, or under which another process saved.
   */
  lemma {:induction false} KeyKeptExactly(s0: State, actions: seq<Action>)
    requires Initial(s0)
    ensures (forall n :: 0 <= n <= |actions| ==> KeyOpensVault(Run(s0, actions[..n]))) <==> AllSpare(s0, actions)
  {
    hide Inv, Run, AllSpare, KeyOpensVault;
    InitialInv(s0);
    if AllSpare(s0, actions) {
      forall n | 0 <= n <= |actions| ensures KeyOpensVault(Run(s0, actions[..n])) {
        SparePrefix(s0, actions, n);
        InitializeSafe(s0, actions[..n], 0, 0);
      }
    } else {
      var n := RemovalOrphans(s0, actions);
    }
  }

  /** No run ever removes a key file that another run created, and one that a vault needs only if tainted. */
  lemma {:induction false} RemovesOnlyOwnKey(s0: State, actions: seq<Action>, a: Action)
    requires Initial(s0) && AllSpare(s0, actions)
    ensures var s := Run(s0, actions);
            s.key.KeyEntry? && Next(s, a).key.NoKey? ==>
              && a.Advance? && a.c in s.tasks && s.key.owner == s.tasks[a.c].run
              && (Visible(s.disk) == Missing <==> s.tasks[a.c].run !in s.tainted)
  {
    hide Run, AllSpare, Next, Inv, StageOk;
    InitialInv(s0);
    RunKeeps(s0, actions);
    var s := Run(s0, actions);
    if s.key.KeyEntry? && Next(s, a).key.NoKey? {
      RemovalIs(s, a);
      OwnerHolds(s, a.c);
      DroppingVault(s, a.c);
    }
  }

  lemma InitialInv(s: State)
    requires Initial(s)
    ensures Inv(s) && s.disk.vault != []
  {
  }

  lemma DroppingVault(s: State, c: Client)
    requires s.disk.vault != [] && c in s.tasks && StageOk(s, c) && s.tasks[c].stage.Dropping?
    ensures Visible(s.disk) == Missing <==> s.tasks[c].run !in s.tainted
  {
  }

  lemma RemovalIs(s: State, a: Action)
    requires s.disk.vault != [] && s.key.KeyEntry? && Next(s, a).key.NoKey?
    ensures a.Advance? && a.c in s.tasks && s.tasks[a.c].stage.Dropping?
  {
    hide Base64.Encode, ReadKey;
  }

  // ----- what the hypothesis is for -----

  /** Four steps of one run, however they go. */
  function FourSteps(s: State, c: Client, l1: Luck, l2: Luck, l3: Luck, l4: Luck): State
    requires s.disk.vault != []
    ensures FourSteps(s, c, l1, l2, l3, l4).disk.vault != []
  {
    Next(Next(Next(Next(s, Advance(c, l1)), Advance(c, l2)), Advance(c, l3)), Advance(c, l4))
  }

  /**
   From right after the rename to the end: the run fails exactly if the directory sync or the unlock
   reports an error, and then the key file opens the vault no more, unless its removal fails as well.
   */
  lemma {:induction false} LateFailureExactly(s: State, c: Client, l1: Luck, l2: Luck, l3: Luck, l4: Luck)
    requires Inv(s) && c in s.tasks && s.tasks[c].stage.Flushing? && s.disk.vault != []
    ensures var end := FourSteps(s, c, l1, l2, l3, l4);
            var removal := if l1.Fine? then l3 else l4;
            && c in end.tasks && end.tasks[c].stage == Finished(l1.Fine? && l2.Fine?)
            && Visible(end.disk) == Visible(s.disk) && Visible(end.disk).File?
            && (KeyOpensVault(end) <==> (l1.Fine? && l2.Fine?) || removal.Error?)
            && (!KeyOpensVault(end) <==> end.key == NoKey)
  {
    hide Inv, StageOk, KeyRead, Open;
    OwnerHolds(s, c);
    FlushingHasVault(s, c);
    LateSteps(s, c, l1, l2, l3, l4);
    var end := FourSteps(s, c, l1, l2, l3, l4);
    hide FourSteps;
    assert KeyRead(NoKey) == NotBase64 by { NoKeyReads(); }
  }

  lemma NoKeyReads()
    ensures KeyRead(NoKey) == NotBase64
  {
  }

  lemma FlushingHasVault(s: State, c: Client)
    requires s.disk.vault != [] && c in s.tasks && StageOk(s, c) && s.tasks[c].stage.Flushing?
    ensures Visible(s.disk).File?
  {
  }

  /** Where a run goes from each of its last stages. */
  function AfterLate(stage: Stage, luck: Luck): Stage {
    match stage
    case Flushing => if luck.Fine? then Unlocking(true) else Cleaning
    case Cleaning => Unlocking(false)
    case Unlocking(ok) => if ok && luck.Fine? then Finished(true) else Dropping
    case Dropping => Finished(false)
    case _ => stage
  }

  /** One step towards the end, and what becomes of the key file. */
  predicate LateOk(s: State, s': State, c: Client, luck: Luck)
    requires c in s.tasks && s.disk.vault != []
  {
    var stage := s.tasks[c].stage;
    && c in s'.tasks && s'.tasks[c].stage == AfterLate(stage, luck)
    && s'.disk.vault != [] && Visible(s'.disk) == Visible(s.disk)
    && s'.key == if stage.Dropping? && luck.Fine? then NoKey else s.key
  }

  lemma LateFlush(s: State, c: Client, luck: Luck)
    requires s.disk.vault != [] && c in s.tasks && (s.tasks[c].stage.Flushing?)
    ensures LateOk(s, Next(s, Advance(c, luck)), c, luck)
  {
    hide KeyRead, Extend;
    var d := s.disk;
    assert Next(s, Advance(c, luck)) ==
      if luck.Error? then Goto(s.(tainted := s.tainted + {s.tasks[c].run}), c, Cleaning)
      else Goto(s.(disk := SyncDirectory(d, |d.vault| - 1)), c, Unlocking(true));
  }

  lemma LateClean(s: State, c: Client, luck: Luck)
    requires s.disk.vault != [] && c in s.tasks && (s.tasks[c].stage.Cleaning?)
    ensures LateOk(s, Next(s, Advance(c, luck)), c, luck)
  {
    hide KeyRead, Extend;
    assert Next(s, Advance(c, luck)) ==
      Goto(if luck.Error? then s else s.(disk := RemoveTemp(s.disk, c.pid)), c, Unlocking(false));
  }

  lemma LateRest(s: State, c: Client, luck: Luck)
    requires s.disk.vault != [] && c in s.tasks && (s.tasks[c].stage.Unlocking? || s.tasks[c].stage.Dropping? || s.tasks[c].stage.Finished?)
    ensures LateOk(s, Next(s, Advance(c, luck)), c, luck)
  {
    hide KeyRead, Extend;
  }

  lemma LateStep(s: State, c: Client, luck: Luck)
    requires s.disk.vault != [] && c in s.tasks
    requires var stage := s.tasks[c].stage;
             stage.Flushing? || stage.Cleaning? || stage.Unlocking? || stage.Dropping? || stage.Finished?
    ensures LateOk(s, Next(s, Advance(c, luck)), c, luck)
  {
    hide Next, LateOk;
    if s.tasks[c].stage.Flushing? {
      LateFlush(s, c, luck);
    } else if s.tasks[c].stage.Cleaning? {
      LateClean(s, c, luck);
    } else {
      LateRest(s, c, luck);
    }
  }

  lemma LateSteps(s: State, c: Client, l1: Luck, l2: Luck, l3: Luck, l4: Luck)
    requires c in s.tasks && s.tasks[c].stage.Flushing? && s.disk.vault != []
    ensures var end := FourSteps(s, c, l1, l2, l3, l4);
            var removal := if l1.Fine? then l3 else l4;
            && c in end.tasks && end.tasks[c].stage == Finished(l1.Fine? && l2.Fine?)
            && Visible(end.disk) == Visible(s.disk)
            && end.key == if (l1.Fine? && l2.Fine?) || removal.Error? then s.key else NoKey
  {
    hide Next, Visible;
    var s1 := Next(s, Advance(c, l1));
    var s2 := Next(s1, Advance(c, l2));
    var s3 := Next(s2, Advance(c, l3));
    LateStep(s, c, l1);
    LateStep(s1, c, l2);
    LateStep(s2, c, l3);
    LateStep(s3, c, l4);
  }

  /**
   Another process's save right before the recheck: the run finds the vault, fails, and removes the
   key under which that save was acknowledged.
   */
  lemma SaveOrphansVault(s: State, c: Client, plain: Plain, nonce: nat)
    requires Inv(s) && c in s.tasks && s.tasks[c].stage.Locking? && s.holder == Free && s.disk.vault != []
    ensures var well := Fine([], 0);
            var end := FourSteps(Next(s, Save(plain, nonce)), c, well, well, well, well);
            && c in end.tasks && end.tasks[c].stage == Finished(false) && end.key == NoKey
            && KeyRead(s.key).Key?
            && end.disk.vault == [File(Inode(Image(KeyRead(s.key).bytes, nonce, plain), true))]
  {
    hide Inv, Open, Image, ReadKey, KeyRead;
    OwnerHolds(s, c);
    LockingReads(s, c);
    var s0 := Saved(s, plain, nonce);
    var s1 := Goto(s0.(holder := Held(c)), c, Rechecking);
    var s2 := Goto(s1, c, Unlocking(false));
    var s3 := Goto(s2.(holder := Free), c, Dropping);
    var well := Fine([], 0);
    assert Next(s, Save(plain, nonce)) == s0;
    assert Next(s0, Advance(c, well)) == s1;
    assert Next(s1, Advance(c, well)) == s2;
    assert Next(s2, Advance(c, well)) == s3;
  }

  lemma LockingReads(s: State, c: Client)
    requires c in s.tasks && s.disk.vault != [] && StageOk(s, c) && s.tasks[c].stage.Locking?
    ensures KeyRead(s.key).Key?
  {
  }

  // ----- a run that nothing disturbs -----

  /** `n` steps of one run without an error, drawing `key`. */
  function Drive(s: State, c: Client, key: Bytes, n: nat): State
    requires s.disk.vault != []
    ensures Drive(s, c, key, n).disk.vault != []
    decreases n
  {
    if n == 0 then s else Drive(Next(s, Advance(c, Fine(key, 0))), c, key, n - 1)
  }

  function Rank(stage: Stage): nat {
    match stage
    case Checking => 16
    case Drawing => 15
    case Encoding(_) => 14
    case Ending(_) => 13
    case Settling(_) => 12
    case Locking => 11
    case Rechecking => 10
    case Preparing => 9
    case Creating(_) => 8
    case Writing(_, done) => if done < 3 then 7 - done else 4
    case Syncing(_) => 4
    case Renaming(_) => 3
    case Flushing => 2
    case Unlocking(_) => 1
    case Dropping => 1
    case Cleaning => 1
    case Finished(_) => 0
  }

  /** The run is on its way to success with the key it has drawn or will draw. */
  predicate OnCourse(s: State, c: Client, key: Bytes) {
    && Inv(s) && c in s.tasks && |key| == KEY_BYTES
    && var stage := s.tasks[c].stage;
       && stage != Unlocking(false) && !stage.Dropping? && !stage.Cleaning? && !stage.Finished?
       && s.tasks[c].run !in s.tainted
       && (Rank(stage) >= 8 ==> c.pid !in s.disk.temps)
       && (Rank(stage) >= 11 ==> s.holder == Free)
       && (Rank(stage) >= 15 ==> s.key == NoKey && Visible(s.disk) == Missing)
       && (stage.Encoding? || stage.Ending? ==> stage.key == key)
       && (Rank(stage) <= 12 ==> KeyRead(s.key) == Key(key))
       && (Rank(stage) <= 2 ==> VaultHolds(s, key))
  }

  /** The vault file is the empty map sealed under `key`. */
  predicate VaultHolds(s: State, key: Bytes) {
    s.disk.vault != [] && Visible(s.disk).File? && Open(key, Visible(s.disk).inode.content) == Good(map[])
  }

  predicate Arrived(s: State, c: Client, key: Bytes, run: nat)
    requires s.disk.vault != []
  {
    && c in s.tasks && s.tasks[c] == Task(run, Finished(true)) && run in s.succeeded
    && KeyRead(s.key) == Key(key) && VaultHolds(s, key)
  }

  /** Still on its way, and closer to the end. */
  predicate Nearer(s: State, s': State, c: Client, key: Bytes)
    requires c in s.tasks
  {
    OnCourse(s', c, key) && s'.tasks[c].run == s.tasks[c].run && Rank(s'.tasks[c].stage) == Rank(s.tasks[c].stage) - 1
  }

  lemma DrawnStep(s: State, c: Client, key: Bytes)
    requires OnCourse(s, c, key) && s.disk.vault != [] && (s.tasks[c].stage.Checking? || s.tasks[c].stage.Drawing?)
    ensures Inv(Step(s, c, Fine(key, 0))) ==> Nearer(s, Step(s, c, Fine(key, 0)), c, key)
  {
    hide Inv, KeyRead, Open;
  }

  lemma KeyWrittenStep(s: State, c: Client, key: Bytes)
    requires OnCourse(s, c, key) && s.disk.vault != [] && 12 <= Rank(s.tasks[c].stage) < 15
    ensures Inv(Step(s, c, Fine(key, 0))) ==> Nearer(s, Step(s, c, Fine(key, 0)), c, key)
  {
    hide Inv, Base64.Encode, KeyRead, Extend, StageOk, KeyOpensVault, SuccessUnique, Visible;
    OwnerHolds(s, c);
    if s.tasks[c].stage.Ending? { KeyFileAfter(s, c, key); }
  }

  lemma KeyFileAfter(s: State, c: Client, key: Bytes)
    requires c in s.tasks && s.disk.vault != [] && s.tasks[c].stage == Ending(key) && StageOk(s, c)
    ensures KeyRead(Extend(s.key, [NEWLINE])) == Key(key)
  {
    KeyReads(key);
    hide Base64.Encode, ReadKey;
  }

  lemma SealedStep(s: State, c: Client, key: Bytes)
    requires OnCourse(s, c, key) && s.disk.vault != [] && 8 <= Rank(s.tasks[c].stage) < 12
    ensures Inv(Step(s, c, Fine(key, 0))) ==> Nearer(s, Step(s, c, Fine(key, 0)), c, key)
  {
    OwnerHolds(s, c);
    hide Inv, KeyRead, Open, ImageOk;
  }

  lemma WritingStep(s: State, c: Client, key: Bytes)
    requires OnCourse(s, c, key) && s.disk.vault != [] && s.tasks[c].stage.Writing?
    ensures Inv(Step(s, c, Fine(key, 0))) ==> Nearer(s, Step(s, c, Fine(key, 0)), c, key)
  {
    hide Inv, KeyRead, KeyOpensVault, SuccessUnique, Open;
    OwnerHolds(s, c);
  }

  lemma SyncingStep(s: State, c: Client, key: Bytes)
    requires OnCourse(s, c, key) && s.disk.vault != [] && s.tasks[c].stage.Syncing?
    ensures Inv(Step(s, c, Fine(key, 0))) ==> Nearer(s, Step(s, c, Fine(key, 0)), c, key)
  {
    hide Inv, KeyRead, KeyOpensVault, SuccessUnique, Open, ImageOk;
    OwnerHolds(s, c);
    assert Step(s, c, Fine(key, 0)) == Goto(s.(disk := SyncTemp(s.disk, c.pid)), c, Renaming(s.tasks[c].stage.image));
  }

  lemma RenamingStep(s: State, c: Client, key: Bytes)
    requires OnCourse(s, c, key) && s.disk.vault != [] && s.tasks[c].stage.Renaming?
    ensures Inv(Step(s, c, Fine(key, 0))) ==> Nearer(s, Step(s, c, Fine(key, 0)), c, key)
  {
    hide Inv, KeyRead, KeyOpensVault, SuccessUnique, Open;
    OwnerHolds(s, c);
    assert Step(s, c, Fine(key, 0)) == Goto(s.(disk := RenameTemp(s.disk, c.pid)), c, Flushing);
  }

  lemma FlushingStep(s: State, c: Client, key: Bytes)
    requires OnCourse(s, c, key) && s.disk.vault != [] && s.tasks[c].stage.Flushing?
    ensures Inv(Step(s, c, Fine(key, 0))) ==> Nearer(s, Step(s, c, Fine(key, 0)), c, key)
  {
    hide Inv, KeyRead, KeyOpensVault, SuccessUnique, Open, ImageOk;
    OwnerHolds(s, c);
    assert Step(s, c, Fine(key, 0)) == Goto(s.(disk := SyncDirectory(s.disk, |s.disk.vault| - 1)), c, Unlocking(true));
  }

  lemma OnwardStep(s: State, c: Client, key: Bytes)
    requires OnCourse(s, c, key) && s.disk.vault != [] && Rank(s.tasks[c].stage) >= 2
    ensures Inv(Step(s, c, Fine(key, 0))) ==> Nearer(s, Step(s, c, Fine(key, 0)), c, key)
  {
    assert c in s.tasks;
    hide OnCourse, Nearer, Inv, Step;
    if Rank(s.tasks[c].stage) >= 15 {
      DrawnStep(s, c, key);
    } else if Rank(s.tasks[c].stage) >= 12 {
      KeyWrittenStep(s, c, key);
    } else if Rank(s.tasks[c].stage) >= 8 {
      SealedStep(s, c, key);
    } else if s.tasks[c].stage.Writing? {
      WritingStep(s, c, key);
    } else if s.tasks[c].stage.Syncing? {
      SyncingStep(s, c, key);
    } else if s.tasks[c].stage.Renaming? {
      RenamingStep(s, c, key);
    } else {
      FlushingStep(s, c, key);
    }
  }

  lemma LastStep(s: State, c: Client, key: Bytes)
    requires OnCourse(s, c, key) && s.tasks[c].stage == Unlocking(true) && s.disk.vault != []
    ensures Arrived(Step(s, c, Fine(key, 0)), c, key, s.tasks[c].run)
  {
    OwnerFacts(s, c);
    hide Base64.Encode, ReadKey, Open;
  }

  /**
   A run alone, with neither vault nor key file present, returns success: the key file then holds
   the key that was drawn and the vault file is the empty map sealed under it.
   */
  lemma {:induction false} UndisturbedInitialize(s: State, c: Client, key: Bytes) returns (n: nat)
    requires OnCourse(s, c, key) && s.disk.vault != []
    ensures Arrived(Drive(s, c, key, n), c, key, s.tasks[c].run)
    decreases Rank(s.tasks[c].stage)
  {
    var a := Advance(c, Fine(key, 0));
    var s1 := Next(s, a);
    assert Inv(s) && s1 == Step(s, c, Fine(key, 0));
    assert Spares(s, a);
    StepKeeps(s, a);
    if s.tasks[c].stage == Unlocking(true) {
      LastStep(s, c, key);
      n := 1;
      assert Drive(s1, c, key, 0) == s1;
    } else {
      OnwardStep(s, c, key);
      hide Inv, Next, Step, OnCourse, Arrived;
      n := UndisturbedInitialize(s1, c, key);
      n := n + 1;
    }
  }

  lemma {:induction false} ReachesFlushing(s: State, c: Client, key: Bytes) returns (n: nat)
    requires OnCourse(s, c, key) && s.disk.vault != [] && Rank(s.tasks[c].stage) >= 2
    ensures var f := Drive(s, c, key, n); Inv(f) && c in f.tasks && f.tasks[c].stage.Flushing?
    decreases Rank(s.tasks[c].stage)
  {
    if s.tasks[c].stage.Flushing? {
      n := 0;
    } else {
      var a := Advance(c, Fine(key, 0));
      var s1 := Next(s, a);
      assert Inv(s) && s1 == Step(s, c, Fine(key, 0)) && Spares(s, a);
      StepKeeps(s, a);
      OnwardStep(s, c, key);
      RankTwo(s.tasks[c].stage);
      hide Inv, Next, Step, OnCourse, Rank;
      n := ReachesFlushing(s1, c, key);
      n := n + 1;
    }
  }

  lemma RankTwo(stage: Stage)
    ensures Rank(stage) == 2 ==> stage.Flushing?
  {
  }

  /** Both late failures occur: each leaves a vault without its key behind a run that went well so far. */
  lemma {:induction false} LateFailureOrphansVault(s: State, c: Client, key: Bytes) returns (n: nat)
    requires OnCourse(s, c, key) && s.disk.vault != [] && Rank(s.tasks[c].stage) >= 2
    ensures var f := Drive(s, c, key, n);
            var syncFails := FourSteps(f, c, Error([], false), Fine([], 0), Fine([], 0), Fine([], 0));
            var unlockFails := FourSteps(f, c, Fine([], 0), Error([], false), Fine([], 0), Fine([], 0));
            && Visible(syncFails.disk).File? && syncFails.key == NoKey
            && Visible(unlockFails.disk).File? && unlockFails.key == NoKey
  {
    hide OnCourse, Rank, Drive, Next, Inv, KeyOpensVault, FourSteps;
    n := ReachesFlushing(s, c, key);
    var f := Drive(s, c, key, n);
    LateFailureExactly(f, c, Error([], false), Fine([], 0), Fine([], 0), Fine([], 0));
    LateFailureExactly(f, c, Fine([], 0), Error([], false), Fine([], 0), Fine([], 0));
  }
}
