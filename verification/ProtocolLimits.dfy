/** What the guards of a stretch cannot promise, the protocol does not keep: a snapshot that ran ahead of its name
    over a stretch that is not settled can leave a replica wrong for good. */
module ProtocolLimits {
  import opened ByteStrings
  import opened Records
  import opened Replay
  import opened ReplayLimits
  import opened PartitionState
  import opened Protocol

  /** Caught up with the log, past everything the snapshot held, and yet not what the log stands for. */
  ghost predicate WrongForGood(w: World, n: nat) {
    var r := ReplicaOf(w, n);
    r.Open? && r.reach <= r.cursor == |w.log| && r.part.disk.store != Fold(map[], w.log)
  }

  /** A run from INIT that arrives at w. */
  ghost predicate Reaches(run: seq<Step>, w: World) {
    Possible(INIT, run, Unguarded) && After(INIT, run) == w
  }

  lemma Extend(run: seq<Step>, w: World, s: Step) returns (run': seq<Step>)
    requires Reaches(run, w) && Enabled(w, s, Unguarded)
    ensures Reaches(run', Do(w, s))
  {
    hide Enabled, Do;
    run' := run + [s];
    assert Possible(Do(w, s), [], Unguarded);
    RunCons(w, s, []);
    assert [s] + [] == [s];
    Protocol.RunConcat(INIT, run, [s]);
  }

  lemma {:induction false} Appended(log: seq<Mutation>) returns (run: seq<Step>)
    ensures Reaches(run, World(log, map[], map[]))
    decreases |log|
  {
    if log == [] {
      run := [];
    } else {
      var n := |log| - 1;
      run := Appended(log[..n]);
      run := Extend(run, World(log[..n], map[], map[]), Append(log[n]));
      assert log[..n] + [log[n]] == log;
    }
  }

  lemma {:induction false} OutcomeNeverFails(st: Store, w: seq<Mutation>, i: nat)
    requires NeverFails(w) && i < |w|
    ensures OutcomeOf(st, w[i]) != Failed
  {
    assert CannotFail(w[i]);
  }

  /** A replica of the world w that has the named backup, or none, and holds st at this cursor. */
  ghost predicate IsAt(r: Replica, st: Store, cursor: int, pending: Option<Pending>) {
    r.Open? && r.part.disk.store == st && r.cursor == cursor && r.pending == pending
  }

  /** Consuming the entries up to the end of the log. */
  lemma {:induction false} ConsumeRest(run: seq<Step>, w: World, n: nat) returns (run': seq<Step>, r': Replica)
    requires Reaches(run, w) && ReplicaOf(w, n).Open? && 0 <= ReplicaOf(w, n).cursor <= |w.log| &&
             0 <= ReplicaOf(w, n).reach <= |w.log|
    requires NeverFails(w.log)
    ensures Reaches(run', w.(replicas := w.replicas[n := r']))
    ensures var r := ReplicaOf(w, n); IsAt(r', Fold(r.part.disk.store, w.log[r.cursor..]), |w.log|, r.pending)
    ensures 0 <= r'.reach <= |w.log|
    decreases |w.log| - ReplicaOf(w, n).cursor
  {
    hide NeverFails, Reaches;
    var r := ReplicaOf(w, n);
    if r.cursor == |w.log| {
      assert w.log[r.cursor..] == [];
      run', r' := StandStill(run, w, n);
    } else {
      OutcomeNeverFails(r.part.disk.store, w.log, r.cursor);
      var next := ConsumeOne(w.log, r);
      ConsumeStores(w.log, r);
      run' := Extend(run, w, Consume(n));
      var w1 := w.(replicas := w.replicas[n := next]);
      run', r' := ConsumeRest(run', w1, n);
      assert w.log[r.cursor..][1..] == w.log[r.cursor + 1..];
      assert w1.replicas[n := r'] == w.replicas[n := r'];
    }
  }

  lemma StandStill(run: seq<Step>, w: World, n: nat) returns (run': seq<Step>, r': Replica)
    requires Reaches(run, w) && n in w.replicas
    ensures run' == run && r' == w.replicas[n] && Reaches(run', w.(replicas := w.replicas[n := r']))
  {
    assert w.replicas[n := w.replicas[n]] == w.replicas;
    run', r' := run, w.replicas[n];
  }

  lemma ConsumeStores(log: seq<Mutation>, r: Replica)
    requires r.Open? && 0 <= r.cursor < |log| && 0 <= r.reach <= |log|
    ensures var r' := ConsumeOne(log, r);
            && IsAt(r', Apply(r.part.disk.store, log[r.cursor]), r.cursor + 1, r.pending)
            && 0 <= r'.reach <= |log|
  {
    if OutcomeOf(r.part.disk.store, log[r.cursor]) == Unrecorded ||
      OutcomeOf(r.part.disk.store, log[r.cursor]) == Failed {
      UnappliedIsNoOp(r.part.disk.store, log[r.cursor]);
    }
  }

  /** The put that creates START under this slot's key. */
  function Creating(slot: Slot): Mutation {
    Mutation(Put, slot.pk, slot.sk, Document("y"), 0, None)
  }

  function Created(slot: Slot): Store {
    map[slot.Key() := START.value]
  }

  lemma CreatingCreates(slot: Slot)
    ensures Apply(map[], Creating(slot)) == Created(slot) && Apply(Created(slot), Creating(slot)) == Created(slot)
    ensures OutcomeOf(map[], Creating(slot)) == Applied && OutcomeOf(Created(slot), Creating(slot)) == Applied
    ensures CannotFail(Creating(slot))
  {
  }

  /** Node 0 has consumed two puts and named a backup at offset 1. */
  lemma Named(log: seq<Mutation>, slot: Slot) returns (run: seq<Step>, r: Replica)
    requires |log| >= 2 && log[0] == Creating(slot) && log[1] == Creating(slot)
    ensures Reaches(run, World(log, map[], map[0 := r]))
    ensures IsAt(r, Created(slot), 2, Some(Pending(1, Created(slot), 2))) && r.reach == 2
  {
    hide Reaches, Creating, Created, ApplyCell;
    CreatingCreates(slot);
    run := Appended(log);
    run := Extend(run, World(log, map[], map[]), Assign(0, 0));
    var r0 := Open(Part(EMPTY_DISK, None), 0, 0, None);
    assert Do(World(log, map[], map[]), Assign(0, 0)) == World(log, map[], map[0 := r0]);
    run := Extend(run, World(log, map[], map[0 := r0]), Consume(0));
    var r1 := Open(Part(Disk(Created(slot), Some(0)), Some(0)), 1, 1, None);
    assert Do(World(log, map[], map[0 := r0]), Consume(0)) == World(log, map[], map[0 := r1]);
    run := Extend(run, World(log, map[], map[0 := r1]), Consume(0));
    var r2 := Open(Part(Disk(Created(slot), Some(1)), Some(1)), 2, 2, None);
    assert Do(World(log, map[], map[0 := r1]), Consume(0)) == World(log, map[], map[0 := r2]);
    run := Extend(run, World(log, map[], map[0 := r2]), NameBackup(0));
    r := r2.(pending := Some(Pending(1, Created(slot), 2)));
    assert Do(World(log, map[], map[0 := r2]), NameBackup(0)) == World(log, map[], map[0 := r]);
  }

  /** The snapshot is taken at the end of the log; node 1 restores it and replays the log from its name. */
  lemma Replayed(log: seq<Mutation>, slot: Slot) returns (run: seq<Step>, w: World)
    requires |log| >= 2 && log[0] == Creating(slot) && log[1] == Creating(slot) && NeverFails(log)
    ensures Reaches(run, w) && w.log == log
    ensures var r := ReplicaOf(w, 1);
            r.Open? && r.reach <= r.cursor == |log| &&
              r.part.disk.store == Fold(Fold(Created(slot), log[2..]), log[2..])
  {
    hide Reaches, NeverFails, Creating, Created, Fold;
    var r: Replica;
    run, r := Named(log, slot);
    var w0 := World(log, map[], map[0 := r]);
    run, r := ConsumeRest(run, w0, 0);
    var w1 := w0.(replicas := w0.replicas[0 := r]);
    run := Extend(run, w1, TakeSnapshot(0));
    var w2 := Do(w1, TakeSnapshot(0));
    assert w2.backups == map[1 := Content(r.part.disk, r.reach)] && 1 !in w2.replicas;
    run := Extend(run, w2, Assign(1, 1));
    var w3 := Do(w2, Assign(1, 1));
    var q := ReplicaOf(w3, 1);
    assert IsAt(q, r.part.disk.store, 2, None) && q.reach == r.reach;
    run, q := ConsumeRest(run, w3, 1);
    w := w3.(replicas := w3.replicas[1 := q]);
  }

  lemma FoldOfCreated(slot: Slot, w: seq<Mutation>)
    ensures Fold(map[], [Creating(slot), Creating(slot)] + w) == Fold(Created(slot), w)
  {
    CreatingCreates(slot);
    var m := Creating(slot);
    FoldConcat(map[], [m, m], w);
    assert [m, m][1..] == [m] && [m][1..] == [];
    assert Fold(map[], [m, m]) == Fold(Apply(map[], m), [m]) == Fold(Apply(Apply(map[], m), m), []);
  }

  lemma {:induction false} SlotOfKind(plan: seq<Slot>, k: Bytes) returns (slot: Slot)
    requires KindsAt(plan, k) != []
    ensures slot.Key() == k
  {
    if plan[0].Key() == k {
      slot := plan[0];
    } else {
      slot := SlotOfKind(plan[1..], k);
    }
  }

  /** The run ends with a replica that is wrong for good, on a log in time that ends in a stretch of the plan. */
  ghost predicate Diverges(run: seq<Step>, n: nat, i: nat, plan: seq<Slot>) {
    && Possible(INIT, run, Unguarded) && WrongForGood(After(INIT, run), n)
    && i <= |After(INIT, run).log| && PlanOf(After(INIT, run).log[i..]) == plan && InTime(After(INIT, run).log)
  }

  /** For every plan that is not settled there is a run of the code, on a log that ends in a stretch of that plan, in
      which a snapshot taken after the stretch under a name from before it makes a replica wrong for good. */
  lemma UnsettledDiverges(plan: seq<Slot>)
    requires !SettledPlan(plan)
    ensures exists run, n: nat, i: nat :: Diverges(run, n, i, plan)
  {
    hide Replayable, Fold, Creating;
    var k :| !Replayable(KindsAt(plan, k));
    NothingIsReplayable();
    var slot := SlotOfKind(plan, k);
    var v := UnsettledBreaks(plan, k);
    CreatingCreates(slot);
    var log := [Creating(slot), Creating(slot)] + v;
    assert log[2..] == v;
    assert NeverFails(log) by {
      forall i | 0 <= i < |log|
        ensures CannotFail(log[i])
      {
        assert i >= 2 ==> log[i] == v[i - 2];
      }
    }
    FoldOfCreated(slot, v);
    var run, w := Replayed(log, slot);
    CreatedInTime(slot, v);
    assert Diverges(run, 1, 2, plan);
  }

  lemma CreatedInTime(slot: Slot, w: seq<Mutation>)
    requires Within(w, 1, 3)
    ensures InTime([Creating(slot), Creating(slot)] + w)
  {
    WithinConcat([Creating(slot), Creating(slot)], w, 0, 1, 3);
  }

  lemma NothingIsReplayable()
    ensures Replayable([])
  {
  }

  /** Two conditional puts of one record, any one, are such a plan. */
  lemma UnguardedSnapshotsDiverge(pk: Bytes, sk: Bytes)
    ensures var slot := Slot(pk, sk, PutIf); exists run, n: nat, i: nat :: Diverges(run, n, i, [slot, slot])
  {
    hide Replayable, Diverges;
    var slot := Slot(pk, sk, PutIf);
    var plan := [slot, slot];
    assert plan == [slot] + [slot] && [slot][1..] == [];
    assert KindsAt([slot], slot.Key()) == [PutIf] + KindsAt([slot][1..], slot.Key());
    KindsAtConcat([slot], [slot], slot.Key());
    assert KindsAt(plan, slot.Key()) == [PutIf, PutIf];
    TwoPutsAreNotReplayable();
    assert !Replayable(KindsAt(plan, slot.Key()));
    UnsettledDiverges(plan);
  }

  lemma TwoPutsAreNotReplayable()
    ensures !Replayable([PutIf, PutIf])
  {
    var s := [PutIf, PutIf];
    assert s[0] in s;
    forall i: nat, j: nat | i <= j <= |s|
      ensures !Bracketed(s, i, j)
    {
      assert forall x :: x in s[..i] ==> x in s;
    }
  }
}
