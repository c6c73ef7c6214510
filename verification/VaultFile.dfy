/**
 The methods of the vault as one caller runs them, one file-system call after another. Each keeps
 the step machine beside it: whatever it does to the disk and the lock is a run of that machine.
 */
module VaultFile {
  import opened Bytes
  import opened VaultDisk
  import opened VaultMachine
  import opened VaultRuns

  /** Steps of one client, with their outcomes in order. */
  function Played(w: World, s: State, c: Client, lucks: seq<Luck>): (r: State)
    requires s.disk.vault != []
    ensures r.disk.vault != []
    decreases |lucks|
  {
    if lucks == [] then s else Next(w, Played(w, s, c, lucks[..|lucks| - 1]), Advance(c, lucks[|lucks| - 1]))
  }

  function Moves(c: Client, lucks: seq<Luck>): seq<Action> {
    seq(|lucks|, i requires 0 <= i < |lucks| => Advance(c, lucks[i]))
  }

  lemma {:induction false} PlayedIsRun(w: World, s: State, c: Client, lucks: seq<Luck>)
    requires s.disk.vault != []
    ensures Played(w, s, c, lucks) == Run(w, s, Moves(c, lucks))
    decreases |lucks|
  {
    hide Next;
    if lucks != [] {
      var front := lucks[..|lucks| - 1];
      PlayedIsRun(w, s, c, front);
      assert Moves(c, lucks)[..|lucks| - 1] == Moves(c, front);
    }
  }

  lemma PlayedNext(w: World, s: State, c: Client, lucks: seq<Luck>, luck: Luck)
    requires s.disk.vault != [] && c in Played(w, s, c, lucks).tasks
    ensures Played(w, s, c, lucks + [luck]) == Step(w, Played(w, s, c, lucks), c, luck)
  {
    hide Step;
    assert (lucks + [luck])[..|lucks|] == lucks;
  }

  lemma StepStays(w: World, s: State, c: Client, luck: Luck)
    requires s.disk.vault != [] && c in s.tasks
    ensures c in Step(w, s, c, luck).tasks
  {
    hide Open, Respond, Effect;
  }

  /** A new call of `c`, its previous one collected. */
  function Begun(w: World, s: State, c: Client, op: Op): State
    requires s.disk.vault != []
  {
    Next(w, Next(w, s, Collect(c)), Invoke(c, op))
  }

  class EncryptedFileVault {
    const key: Bytes
    const client: Client
    const env: nat -> Luck       // how each call into the operating system goes, by its number
    var disk: Disk
    var holder: Holder
    var calls: nat               // the number of the next one
    ghost const start: Plain
    ghost var machine: State     // the machine, kept in step
    ghost var begun: State       // the machine when the call began
    ghost var lucks: seq<Luck>   // how each step since has gone
    ghost var first: nat         // the number of the first of them

    ghost function W(): World {
      World(key, start)
    }

    /** The machine is where playing the steps so far leads, and agrees on disk and lock. */
    ghost predicate InStep()
      reads this
    {
      && begun.disk.vault != [] && client in machine.tasks
      && machine == Played(W(), begun, client, lucks)
      && machine.disk == disk && machine.holder == holder
      && calls == first + |lucks| && forall i :: 0 <= i < |lucks| ==> lucks[i] == env(first + i)
    }

    /** No call into the operating system from this number on reports an error. */
    ghost predicate FineFrom(n: nat) {
      forall k :: k >= n ==> env(k).Fine?
    }

    ghost predicate At(phase: Phase)
      reads this
    {
      InStep() && machine.tasks[client].phase == phase
    }

    /** Nothing of the current call has been started over. */
    ghost predicate Since(begun: State, first: nat)
      reads this
    {
      this.begun == begun && this.first == first
    }

    /** No call of this client is under way. */
    ghost predicate Idle()
      reads this
    {
      && disk.vault != [] && holder == Free && machine.disk == disk && machine.holder == holder
      && (client in machine.tasks ==> machine.tasks[client].phase.Returned?)
    }

    constructor (key: Bytes, client: Client, env: nat -> Luck, disk: Disk, ghost start: Plain)
      requires disk.vault != []
      ensures Idle() && this.disk == disk && this.key == key && this.client == client && this.start == start
      ensures this.env == env
      ensures machine == State(disk, Free, map[], [], {}, 0)
    {
      this.key, this.client, this.env, this.disk, this.holder, this.start := key, client, env, disk, Free, start;
      calls := 0;
      machine := State(disk, Free, map[], [], {}, 0);
    }

    /** The next call goes as it goes, and the machine takes the step. */
    method Play() returns (luck: Luck)
      requires InStep()
      modifies this`machine, this`lucks, this`calls
      ensures luck == env(old(calls)) && calls == old(calls) + 1
      ensures machine == Step(W(), old(machine), client, luck) && lucks == old(lucks) + [luck]
      ensures machine == Played(W(), begun, client, lucks) && client in machine.tasks
      ensures calls == first + |lucks| && forall i :: 0 <= i < |lucks| ==> lucks[i] == env(first + i)
    {
      hide Step, Played;
      luck := env(calls);
      calls := calls + 1;
      StepStays(W(), machine, client, luck);
      PlayedNext(W(), begun, client, lucks, luck);
      machine := Step(W(), machine, client, luck);
      lucks := lucks + [luck];
    }

    ghost method Begin(op: Op)
      requires Idle()
      modifies this`machine, this`begun, this`lucks, this`first
      ensures begun == Begun(W(), old(machine), client, op) && first == calls && lucks == []
      ensures At(Waiting) && machine == begun && machine.tasks[client].op == op
    {
      begun := Begun(W(), machine, client, op);
      machine := begun;
      first, lucks := calls, [];
    }

    // ----- the lock -----

    method Lock() returns (ok: bool)
      requires At(Waiting) && holder == Free
      modifies this
      ensures Since(old(begun), old(first)) && calls == old(calls) + 1 && (ok <==> env(old(calls)).Fine?)
      ensures disk == old(disk) && holder == if ok then Held(client) else Free
      ensures At(if ok then Looking else Returned(Failed)) && machine.tasks[client].op == old(machine.tasks[client].op)
    {
      hide Played;
      var luck := Play();
      ok := luck.Fine?;
      if ok {
        holder := Held(client);
      }
    }

    /** A result stands only if the lock can be released, an error in any case. */
    method Unlock(outcome: Outcome) returns (result: Outcome)
      requires At(Unlocking(outcome)) && holder == Held(client)
      modifies this
      ensures Since(old(begun), old(first)) && disk == old(disk) && holder == Free
      ensures At(Returned(result)) && (result == outcome || result == Failed)
      ensures outcome == Answer(Unavailable) || env(old(calls)).Fine? ==> result == outcome
    {
      hide Played;
      var luck := Play();
      holder := Free;
      result := if luck.Fine? then outcome else IfUnlockFails(outcome);
    }

    // ----- loading -----

    /** What loading gives: the map in the file, or the empty map if no file is seen. */
    function Taken(e: Entry, existence: Luck): Opened {
      if existence.Error? || e == Missing then Good(map[]) else Open(key, e.inode.content)
    }

    /** The decrypted map; the machine has taken it up and answered or turned to saving. */
    method LoadPlain() returns (r: Opened)
      requires At(Looking) && disk.vault != []
      modifies this
      ensures Since(old(begun), old(first)) && calls >= old(calls) && disk == old(disk) && holder == old(holder)
      ensures r.Bad? ==> At(Unlocking(Failed))
      ensures r.Good? ==>
        (var op := old(machine.tasks[client].op);
         At(if op.Get? || (op.Delete? && op.id !in r.plain) then Unlocking(Answer(Respond(r.plain, op)))
            else Sealing(Effect(r.plain, op))))
      ensures r.Good? || FineFrom(old(calls)) ==> r == Taken(Visible(disk), env(old(calls)))
    {
      hide Respond, Effect, Played, Open;
      var status := Play();
      if status.Error? || Visible(disk) == Missing {
        return Good(map[]);
      }
      var read := Play();
      if read.Error? {
        return Bad;
      }
      var raw := Visible(disk).inode.content;
      var keyRead := Play();
      r := if keyRead.Fine? then Open(key, raw) else Bad;
    }

    // ----- saving -----

    method OpenNew(image: Content) returns (ok: bool)
      requires At(Creating(image))
      modifies this
      ensures Since(old(begun), old(first)) && holder == old(holder) && calls == old(calls) + 1
      ensures At(if ok then Writing(image, 0) else Cleaning)
      ensures ok <==> env(old(calls)).Fine? && client.pid !in old(disk.temps)
      ensures disk == if ok then CreateTemp(old(disk), client.pid) else old(disk)
    {
      hide Played;
      var luck := Play();
      ok := luck.Fine? && client.pid !in disk.temps;
      if ok {
        disk := CreateTemp(disk, client.pid);
      }
    }

    method WriteAll(image: Content, n: nat) returns (ok: bool)
      requires At(Writing(image, n)) && n < |image| && client.pid in disk.temps
      modifies this
      ensures Since(old(begun), old(first)) && holder == old(holder) && calls == old(calls) + 1
      ensures disk.vault == old(disk.vault) && disk.temps.Keys == old(disk.temps).Keys
      ensures ok <==> env(old(calls)).Fine?
      ensures At(if !ok then Cleaning else if n + 1 < |image| then Writing(image, n + 1) else Syncing(image))
      ensures ok ==> disk == Append(old(disk), client.pid, image[n])
      ensures disk.temps - {client.pid} == old(disk.temps) - {client.pid}
    {
      hide Played;
      var luck := Play();
      ok := luck.Fine?;
      if ok {
        disk := Append(disk, client.pid, image[n]);
      } else if luck.torn {
        disk := Append(disk, client.pid, Torn);
      }
    }

    method SyncAll(image: Content) returns (ok: bool)
      requires At(Syncing(image)) && client.pid in disk.temps
      modifies this
      ensures Since(old(begun), old(first)) && holder == old(holder) && calls == old(calls) + 1
      ensures At(if ok then Renaming(image) else Cleaning) && (ok <==> env(old(calls)).Fine?)
      ensures disk == if ok then SyncTemp(old(disk), client.pid) else old(disk)
    {
      hide Played;
      var luck := Play();
      ok := luck.Fine?;
      if ok {
        disk := SyncTemp(disk, client.pid);
      }
    }

    method Rename(image: Content) returns (ok: bool)
      requires At(Renaming(image)) && client.pid in disk.temps
      modifies this
      ensures Since(old(begun), old(first)) && holder == old(holder) && disk.vault != [] && calls == old(calls) + 1
      ensures At(if ok then Flushing else Cleaning) && (ok <==> env(old(calls)).Fine?)
      ensures disk == if ok then RenameTemp(old(disk), client.pid) else old(disk)
    {
      hide Played;
      var luck := Play();
      ok := luck.Fine?;
      if ok {
        disk := RenameTemp(disk, client.pid);
      }
    }

    method SyncDir() returns (ok: bool)
      requires At(Flushing)
      modifies this
      ensures Since(old(begun), old(first)) && holder == old(holder) && disk.vault != [] && calls == old(calls) + 1
      ensures At(if ok then Unlocking(Answer(Stored)) else Cleaning) && (ok <==> env(old(calls)).Fine?)
      ensures Visible(disk) == old(Visible(disk)) && disk.temps == old(disk.temps) && (ok ==> |disk.vault| == 1)
    {
      hide Played;
      var luck := Play();
      ok := luck.Fine?;
      disk := SyncDirectory(disk, if ok then |disk.vault| - 1 else Forgotten(disk, luck));
    }

    method RemoveFile()
      requires At(Cleaning)
      modifies this
      ensures Since(old(begun), old(first)) && holder == old(holder) && calls == old(calls) + 1
      ensures At(Unlocking(Failed))
      ensures disk == if env(old(calls)).Fine? then RemoveTemp(old(disk), client.pid) else old(disk)
    {
      hide Played;
      var luck := Play();
      if luck.Fine? {
        disk := RemoveTemp(disk, client.pid);
      }
    }

    /** Reading the key, drawing a nonce and encrypting. */
    method Seal(plain: Plain) returns (ok: bool, image: Content)
      requires At(Sealing(plain))
      modifies this
      ensures Since(old(begun), old(first)) && holder == old(holder) && disk == old(disk) && calls == old(calls) + 1
      ensures At(if ok then Creating(image) else Unlocking(Failed)) && (ok <==> env(old(calls)).Fine?)
      ensures ok ==> |image| == 3 && Open(key, image) == Good(plain)
    {
      hide Played;
      var luck := Play();
      ok := luck.Fine?;
      image := if ok then Image(key, luck.nonce, plain) else [];
    }

    /** The whole image in the temporary file, synced. */
    method WriteTemp(image: Content) returns (ok: bool)
      requires At(Creating(image)) && |image| == 3
      modifies this
      ensures Since(old(begun), old(first)) && holder == old(holder) && calls >= old(calls)
      ensures disk.vault == old(disk.vault) && disk.temps - {client.pid} == old(disk.temps) - {client.pid}
      ensures At(if ok then Renaming(image) else Cleaning)
      ensures ok ==> client.pid in disk.temps && disk.temps[client.pid] == Inode(image, true)
      ensures FineFrom(old(calls)) ==> (ok <==> client.pid !in old(disk.temps))
    {
      hide Played, Step, At, InStep;
      ok := OpenNew(image);
      if ok { ok := WriteAll(image, 0); }
      if ok { ok := WriteAll(image, 1); }
      if ok { ok := WriteAll(image, 2); }
      assert ok ==> disk.temps[client.pid].content == [image[0], image[1], image[2]] == image;
      if ok { ok := SyncAll(image); }
    }

    /** The temporary file over the vault file, and the directory synced. */
    method MoveIn(image: Content) returns (ok: bool)
      requires At(Renaming(image)) && client.pid in disk.temps && disk.temps[client.pid] == Inode(image, true)
      requires disk.vault != []
      modifies this
      ensures Since(old(begun), old(first)) && holder == old(holder) && disk.vault != [] && calls >= old(calls)
      ensures At(if ok then Unlocking(Answer(Stored)) else Cleaning)
      ensures disk.temps - {client.pid} == old(disk.temps) - {client.pid}
      ensures Visible(disk) == File(Inode(image, true)) || (!ok && Visible(disk) == old(Visible(disk)))
      ensures ok ==> |disk.vault| == 1 && client.pid !in disk.temps
      ensures FineFrom(old(calls)) ==> ok
    {
      hide Played, Step, At, InStep, Open;
      ok := Rename(image);
      if ok { ok := SyncDir(); }
    }

    /**
     On success the vault is durably the new image. On failure the visible vault file is the old
     one or the new one, whole.
     */
    method SavePlain(plain: Plain) returns (ok: bool)
      requires At(Sealing(plain)) && disk.vault != []
      modifies this
      ensures Since(old(begun), old(first)) && holder == old(holder) && disk.vault != [] && calls >= old(calls)
      ensures At(Unlocking(if ok then Answer(Stored) else Failed))
      ensures disk.temps - {client.pid} == old(disk.temps) - {client.pid}
      ensures FineFrom(old(calls)) ==> (ok <==> client.pid !in old(disk.temps)) && client.pid !in disk.temps
      ensures ok ==> |disk.vault| == 1 && SavedAs(Visible(disk), plain)
      ensures Visible(disk) == old(Visible(disk)) || SavedAs(Visible(disk), plain)
    {
      hide Played, Step, At, InStep, Open;
      var image;
      ok, image := Seal(plain);
      if !ok {
        return;
      }
      ok := WriteTemp(image);
      if ok { ok := MoveIn(image); }
      if !ok { RemoveFile(); }
    }

    /** A synced file holding exactly this map under the vault's key. */
    predicate SavedAs(e: Entry, plain: Plain) {
      e.File? && e.inode.synced && Open(key, e.inode.content) == Good(plain)
    }

    // ----- the three operations -----

    /** What a call must leave behind: a run of the machine, with the luck it had, that ends with this outcome. */
    ghost predicate Ended(before: State, number: nat, op: Op, outcome: Outcome)
      reads this
    {
      && before.disk.vault != [] && begun == Begun(W(), before, client, op) && first == number
      && At(Returned(outcome)) && holder == Free
    }

    /**
     The file's map answers. Number `old(calls)` is the lock and the next one the existence test, after
     whose failure the vault is taken to be empty.
     */
    method Get(id: string) returns (outcome: Outcome)
      requires Idle()
      modifies this
      ensures Ended(old(machine), old(calls), Op.Get(id), outcome) && disk == old(disk)
      ensures outcome.Answer? || FineFrom(old(calls)) ==>
        (var taken := Taken(Visible(disk), env(old(calls) + 1));
         outcome == if taken.Bad? then Failed
                    else Answer(if id in taken.plain then Value(taken.plain[id]) else Unavailable))
    {
      hide Played, Step, InStep, Taken, Begun;
      Begin(Op.Get(id));
      var locked := Lock();
      if !locked {
        return Failed;
      }
      var loaded := LoadPlain();
      var found := Failed;
      if loaded.Good? {
        found := Answer(if id in loaded.plain then Value(loaded.plain[id]) else Unavailable);
      }
      outcome := Unlock(found);
    }

    /** What `set` does under the lock. */
    method SetLocked(id: string, value: string) returns (saved: bool)
      requires At(Looking) && disk.vault != [] && machine.tasks[client].op == Op.Set(id, value)
      modifies this
      ensures Since(old(begun), old(first)) && calls >= old(calls) && holder == old(holder) && disk.vault != []
      ensures At(Unlocking(if saved then Answer(Stored) else Failed))
      ensures var taken := Taken(old(Visible(disk)), env(old(calls)));
              && (saved ==> |disk.vault| == 1 && taken.Good? && SavedAs(Visible(disk), taken.plain[id := value]))
              && (Visible(disk) == old(Visible(disk)) || (taken.Good? && SavedAs(Visible(disk), taken.plain[id := value])))
              && (FineFrom(old(calls)) && taken.Good? && client.pid !in old(disk.temps) ==> saved)
    {
      hide Played, Step, InStep, Taken, Open, SavedAs;
      var loaded := LoadPlain();
      saved := false;
      if loaded.Good? {
        saved := SavePlain(loaded.plain[id := value]);
      }
    }

    /** The same map with the id set is then the only entry; a failing call leaves the old file or that one. */
    method Set(id: string, value: string) returns (outcome: Outcome)
      requires Idle()
      modifies this
      ensures Ended(old(machine), old(calls), Op.Set(id, value), outcome) && disk.vault != []
      ensures outcome == Failed || outcome == Answer(Stored)
      ensures var taken := Taken(old(Visible(disk)), env(old(calls) + 1));
              && (outcome == Answer(Stored) ==>
                    |disk.vault| == 1 && taken.Good? && SavedAs(Visible(disk), taken.plain[id := value]))
              && (Visible(disk) == old(Visible(disk)) || (taken.Good? && SavedAs(Visible(disk), taken.plain[id := value])))
              && (FineFrom(old(calls)) && taken.Good? && client.pid !in old(disk.temps) ==> outcome == Answer(Stored))
    {
      hide Played, Step, InStep, Taken, Begun, Open, SavedAs;
      Begin(Op.Set(id, value));
      var locked := Lock();
      if !locked {
        return Failed;
      }
      var saved := SetLocked(id, value);
      outcome := Unlock(if saved then Answer(Stored) else Failed);
    }

    /** What `delete` does under the lock. */
    method DeleteLocked(id: string) returns (result: Outcome)
      requires At(Looking) && disk.vault != [] && machine.tasks[client].op == Op.Delete(id)
      modifies this
      ensures Since(old(begun), old(first)) && calls >= old(calls) && holder == old(holder) && disk.vault != []
      ensures At(Unlocking(result)) && (result == Failed || result == Answer(Stored) || result == Answer(Unavailable))
      ensures var taken := Taken(old(Visible(disk)), env(old(calls)));
              && (result == Answer(Stored) ==>
                    |disk.vault| == 1 && taken.Good? && id in taken.plain && SavedAs(Visible(disk), taken.plain - {id}))
              && (result == Answer(Unavailable) ==>
                    Visible(disk) == old(Visible(disk)) && taken.Good? && id !in taken.plain)
              && (Visible(disk) == old(Visible(disk))
                  || (taken.Good? && id in taken.plain && SavedAs(Visible(disk), taken.plain - {id})))
              && (FineFrom(old(calls)) && taken.Good? && client.pid !in old(disk.temps) ==>
                    result == Answer(if id in taken.plain then Stored else Unavailable))
    {
      hide Played, Step, InStep, Taken, Open, SavedAs;
      var loaded := LoadPlain();
      result := Failed;
      if loaded.Good? {
        if id !in loaded.plain {
          result := Answer(Unavailable);
        } else {
          var saved := SavePlain(loaded.plain - {id});
          result := if saved then Answer(Stored) else Failed;
        }
      }
    }

    /** An absent id is an error and changes nothing; success leaves the same map without the id. */
    method Delete(id: string) returns (outcome: Outcome)
      requires Idle()
      modifies this
      ensures Ended(old(machine), old(calls), Op.Delete(id), outcome) && disk.vault != []
      ensures outcome == Failed || outcome == Answer(Stored) || outcome == Answer(Unavailable)
      ensures var taken := Taken(old(Visible(disk)), env(old(calls) + 1));
              && (outcome == Answer(Stored) ==>
                    |disk.vault| == 1 && taken.Good? && id in taken.plain && SavedAs(Visible(disk), taken.plain - {id}))
              && (outcome == Answer(Unavailable) ==>
                    Visible(disk) == old(Visible(disk)) && taken.Good? && id !in taken.plain)
              && (Visible(disk) == old(Visible(disk))
                  || (taken.Good? && id in taken.plain && SavedAs(Visible(disk), taken.plain - {id})))
              && (FineFrom(old(calls)) && taken.Good? && client.pid !in old(disk.temps) ==>
                    outcome == Answer(if id in taken.plain then Stored else Unavailable))
    {
      hide Played, Step, InStep, Taken, Begun, Open, SavedAs;
      Begin(Op.Delete(id));
      var locked := Lock();
      if !locked {
        return Failed;
      }
      var result := DeleteLocked(id);
      outcome := Unlock(result);
    }
  }

  /** So every call of these methods is a run of the machine: all that holds of its runs holds of them. */
  lemma {:induction false} CallIsRun(w: World, before: State, c: Client, op: Op, lucks: seq<Luck>)
    requires before.disk.vault != []
    ensures Played(w, Begun(w, before, c, op), c, lucks) == Run(w, before, [Collect(c), Invoke(c, op)] + Moves(c, lucks))
  {
    var s := Begun(w, before, c, op);
    PlayedIsRun(w, s, c, lucks);
    RunSplit(w, before, [Collect(c), Invoke(c, op)], Moves(c, lucks));
    TwoSteps(w, before, Collect(c), Invoke(c, op));
  }

  lemma TwoSteps(w: World, s: State, a: Action, b: Action)
    requires s.disk.vault != []
    ensures Run(w, s, [a, b]) == Next(w, Next(w, s, a), b)
  {
    hide Next;
    assert [a, b][..1] == [a] && [a][..0] == [];
    assert Run(w, s, [a]) == Next(w, s, a);
  }
}
