/** The answers of the vault, told from the commits in force alone: the law of a map of registers. */
module VaultMap {
  import opened VaultDisk
  import opened VaultMachine
  import opened VaultSafety
  import opened VaultRuns

  /** A set or delete of this id. */
  predicate Writes(op: Op, id: string) {
    (op.Set? || op.Delete?) && op.id == id
  }

  /** No commit after position `i` writes `id`. */
  predicate NoneLater(t: seq<Commit>, i: int, id: string) {
    forall j :: i < j < |t| && 0 <= j ==> !Writes(t[j].op, id)
  }

  /** The last commit on `id` is Set(id, v), or there is none and the vault held v at the start. */
  ghost predicate Holds(start: Plain, t: seq<Commit>, id: string, v: string) {
    || (exists i :: 0 <= i < |t| && t[i].op == Set(id, v) && NoneLater(t, i, id))
    || (NoneLater(t, -1, id) && id in start && start[id] == v)
  }

  /** Some value is held under `id`. */
  ghost predicate HoldsSome(start: Plain, t: seq<Commit>, id: string) {
    exists v :: Holds(start, t, id, v)
  }

  lemma HoldsNext(start: Plain, t: seq<Commit>, c: Commit, id: string, v: string)
    ensures Holds(start, t + [c], id, v) <==>
            if Writes(c.op, id) then c.op == Set(id, v) else Holds(start, t, id, v)
  {
    var g := t + [c];
    if Writes(c.op, id) {
      if c.op == Set(id, v) {
        assert g[|t|].op == Set(id, v) && NoneLater(g, |t|, id);
      }
      forall i | -1 <= i < |t| ensures !NoneLater(g, i, id) {
        assert Writes(g[|t|].op, id);
      }
    } else {
      forall i | -1 <= i < |t| ensures NoneLater(g, i, id) <==> NoneLater(t, i, id) {
        assert forall j :: 0 <= j < |t| ==> g[j] == t[j];
        assert g[|t|] == c;
      }
      if Holds(start, t, id, v) && !NoneLater(t, -1, id) {
        var i :| 0 <= i < |t| && t[i].op == Set(id, v) && NoneLater(t, i, id);
        assert g[i].op == Set(id, v) && NoneLater(g, i, id);
      }
    }
  }

  /** The plain map after some commits holds exactly what the last commit on each id says. */
  lemma {:induction false} ReplayHolds(start: Plain, t: seq<Commit>, id: string, v: string)
    ensures id in Replay(start, t) && Replay(start, t)[id] == v <==> Holds(start, t, id, v)
    decreases |t|
  {
    if t != [] {
      var front, c := t[..|t| - 1], t[|t| - 1];
      ReplayHolds(start, front, id, v);
      assert t == front + [c];
      HoldsNext(start, front, c, id, v);
    }
  }

  lemma {:induction false} LegalAt(w: World, h: seq<Event>, k: nat)
    requires Legal(w, h) && k < |h|
    ensures Legal(w, h[..k + 1])
    decreases |h|
  {
    if k + 1 < |h| {
      LegalAt(w, h[..|h| - 1], k);
      assert h[..|h| - 1][..k + 1] == h[..k + 1];
    } else {
      assert h[..k + 1] == h;
    }
  }

  /**
   In every legal history: a get is answered with `v` exactly if the last commit in force on its id is
   a set to `v`, or there is none and the vault held `v` at the start, and is unavailable otherwise. A
   delete succeeds exactly if some value is held, and is unavailable otherwise. A set succeeds.
   */
  lemma {:induction false} RegisterLaw(w: World, h: seq<Event>, k: nat, v: string)
    requires Legal(w, h) && k < |h| && h[k].Done?
    ensures var t, op, reply := Trunk(h[..k]), h[k].op, h[k].reply;
            && (op.Get? ==> (reply == Value(v) <==> Holds(w.start, t, op.id, v)))
            && (op.Get? ==> (reply == Unavailable <==> !HoldsSome(w.start, t, op.id)))
            && (op.Delete? ==> (reply == Stored <==> HoldsSome(w.start, t, op.id)))
            && (op.Delete? ==> reply == Stored || reply == Unavailable)
            && (op.Set? ==> reply == Stored)
  {
    hide Trunk, Replay, Holds, HoldsSome;
    LegalAt(w, h, k);
    var g := h[..k + 1];
    assert g[|g| - 1] == h[k] && g[..|g| - 1] == h[..k];
    if !h[k].op.Set? {
      MapHolds(w.start, Trunk(h[..k]), h[k].op.id, v);
    }
  }

  lemma MapHolds(start: Plain, t: seq<Commit>, id: string, v: string)
    ensures var m := Replay(start, t);
            && (id in m && m[id] == v <==> Holds(start, t, id, v))
            && (id in m <==> HoldsSome(start, t, id))
  {
    hide Replay, Holds;
    var m := Replay(start, t);
    ReplayHolds(start, t, id, v);
    if id in m {
      ReplayHolds(start, t, id, m[id]);
    }
    if u :| Holds(start, t, id, u) {
      ReplayHolds(start, t, id, u);
    }
  }

  /** Without a power loss, the commits in force are the calls that were answered with success, in order. */
  lemma {:induction false} TrunkIsStored(h: seq<Event>)
    requires forall i :: 0 <= i < |h| ==> h[i].Done?
    ensures forall c :: c in Trunk(h) <==> exists i :: 0 <= i < |h| && h[i] == Done(c.call, c.op, Stored)
    decreases |h|
  {
    if h != [] {
      var front, e := h[..|h| - 1], h[|h| - 1];
      TrunkIsStored(front);
      assert forall i :: 0 <= i < |front| ==> front[i] == h[i];
      forall c ensures c in Trunk(h) <==> exists i :: 0 <= i < |h| && h[i] == Done(c.call, c.op, Stored) {
        if e == Done(c.call, c.op, Stored) {
          assert h[|h| - 1] == e;
        }
        if c in Trunk(front) {
          var i :| 0 <= i < |front| && front[i] == Done(c.call, c.op, Stored);
          assert h[i] == front[i];
        }
      }
    }
  }

  /**
   In every run, the same of the answer a call has returned: some moment between its start and its
   return is such that the answer is the one the commits in force then give.
   */
  lemma AnswerLaw(w: World, s0: State, actions: seq<Action>, c: Client, v: string) returns (k: nat)
    requires Initial(w, s0) && AllReadable(w, s0, actions)
    requires var s := Run(w, s0, actions);
             c in s.tasks && s.tasks[c].phase.Returned? && s.tasks[c].phase.outcome.Answer? && s.tasks[c].op.Get?
    ensures var s := Run(w, s0, actions);
            var task := s.tasks[c];
            && task.since <= k < |s.hist|
            && (task.phase.outcome == Answer(Value(v)) <==> Holds(w.start, Trunk(s.hist[..k]), task.op.id, v))
  {
    hide Run, AllReadable, Legal, Holds, Trunk;
    Linearizable(w, s0, actions);
    var s := Run(w, s0, actions);
    var task := s.tasks[c];
    k :| task.since <= k < |s.hist| && s.hist[k] == Done(task.call, task.op, task.phase.outcome.reply);
    RegisterLaw(w, s.hist, k, v);
  }

  /** The visible vault file holds `v` under `id` exactly if the commits in force say so. */
  lemma FileLaw(w: World, s0: State, actions: seq<Action>, id: string, v: string)
    requires Initial(w, s0) && AllReadable(w, s0, actions)
    ensures var s := Run(w, s0, actions);
            (Visible(s.disk).File? && Open(w.key, Visible(s.disk).inode.content).Good?
             && id in Open(w.key, Visible(s.disk).inode.content).plain
             && Open(w.key, Visible(s.disk).inode.content).plain[id] == v)
            <==> Holds(w.start, Trunk(s.hist), id, v)
  {
    Linearizable(w, s0, actions);
    var s := Run(w, s0, actions);
    hide Run, AllReadable, Legal, Holds, Trunk, Open, Replay;
    ReplayHolds(w.start, Trunk(s.hist), id, v);
  }
}
