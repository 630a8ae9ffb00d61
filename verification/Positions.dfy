/** Where a replica's saved position stands in the log: one past the last consumed entry that was not a conditional
    delete of an absent key. */
module Positions {
  import opened Records
  import opened Replay
  import opened PartitionState
  import opened Protocol

  /** When its turn came, the entry at i was a conditional delete of a key that was absent. */
  ghost predicate Idle(log: seq<Mutation>, i: nat)
    requires i < |log|
  {
    DeletesAbsent(Fold(map[], log[..i]), log[i])
  }

  /** An offset is that of an entry that was not idle. */
  ghost predicate Marks(log: seq<Mutation>, offset: Option<int>) {
    offset.Some? ==> 0 <= offset.value < |log| && !Idle(log, offset.value)
  }

  ghost predicate MarkedReplica(log: seq<Mutation>, r: Replica) {
    match r
    case Closed(c) => Marks(log, c.disk.saved)
    case Open(part, _, _, _) => Marks(log, part.lastOffset) && Marks(log, part.disk.saved)
  }

  ghost predicate Marked(w: World) {
    && (forall o :: o in w.backups ==> Marks(w.log, Some(o)) && Marks(w.log, w.backups[o].disk.saved))
    && (forall n :: n in w.replicas ==> MarkedReplica(w.log, w.replicas[n]))
  }

  lemma MarksAppend(log: seq<Mutation>, m: Mutation, offset: Option<int>)
    requires Marks(log, offset)
    ensures Marks(log + [m], offset)
  {
    if offset.Some? {
      assert (log + [m])[..offset.value] == log[..offset.value];
    }
  }

  lemma MarkedAppend(w: World, m: Mutation)
    requires Marked(w)
    ensures Marked(Do(w, Append(m)))
  {
    hide Marks;
    forall offset | Marks(w.log, offset)
      ensures Marks(w.log + [m], offset)
    {
      MarksAppend(w.log, m, offset);
    }
  }

  lemma NothingSaved(log: seq<Mutation>)
    ensures Marks(log, None)
  {
  }

  /** With exact snapshots the store is the fold up to the cursor, so an entry that is recorded was not idle. */
  lemma MarkedConsume(w: World, n: nat)
    requires Inv(w, Quiet) && MarkedReplica(w.log, ReplicaOf(w, n)) && Enabled(w, Consume(n), Quiet)
    ensures MarkedReplica(w.log, ConsumeOne(w.log, ReplicaOf(w, n)))
  {
    InvReplica(w, n, Quiet);
    var r := ReplicaOf(w, n);
    ExactReplica(w.log, r);
    UnrecordedIff(r.part.disk.store, w.log[r.cursor]);
  }

  /** What the invariant of exact snapshots says of an open replica. */
  lemma ExactReplica(log: seq<Mutation>, r: Replica)
    requires r.Open? && GoodReplica(log, r, Quiet)
    ensures var s := Next(r.part.lastOffset);
            && 0 <= s <= r.cursor <= |log| && Next(r.part.disk.saved) == s
            && r.part.disk.store == Fold(map[], log[..s]) == Fold(map[], log[..r.cursor])
            && AllUnrecorded(r.part.disk.store, log[s..r.cursor])
  {
    var s := Next(r.part.lastOffset);
    SkipGap(log, r.part.disk.store, s, r.cursor, r.reach);
    assert log[s..r.reach] == [];
  }

  lemma MarkedStep(w: World, s: Step)
    requires Inv(w, Quiet) && Marked(w) && Enabled(w, s, Quiet)
    ensures Marked(Do(w, s))
  {
    hide Marks, Inv;
    NothingSaved(w.log);
    match s
    case Append(m) => MarkedAppend(w, m);
    case Consume(n) => MarkedConsume(w, n);
    case Assign(_, _) =>
    case Crash(_) =>
    case Leave(_) =>
    case NameBackup(_) =>
    case TakeSnapshot(_) =>
  }

  lemma {:induction false} MarkedRun(w: World, run: seq<Step>)
    requires Inv(w, Quiet) && Marked(w) && Possible(w, run, Quiet)
    ensures Possible(w, run, Unguarded) && Marked(After(w, run))
    decreases run
  {
    hide Inv, Marked;
    if run != [] {
      InvStep(w, run[0], Quiet);
      MarkedStep(w, run[0]);
      MarkedRun(Do(w, run[0]), run[1..]);
    }
  }

  /** Every entry of an idle gap was idle when its turn came. */
  lemma GapIsIdle(log: seq<Mutation>, store: Store, s: nat, i: nat, c: nat)
    requires s <= i < c <= |log|
    requires store == Fold(map[], log[..s]) && AllUnrecorded(store, log[s..c])
    ensures Idle(log, i)
  {
    hide OutcomeOf, Apply;
    var gap := log[s..i];
    assert forall j :: 0 <= j < |gap| ==> gap[j] == log[s..c][j];
    UnrecordedFold(store, gap);
    FoldSplit(map[], log, 0, s, i);
    assert log[0..s] == log[..s] && log[0..i] == log[..i];
    assert log[s..c][i - s] == log[i];
    UnrecordedIff(store, log[i]);
  }

  /** The saved offset is the one remembered, and is that of the last entry before the cursor that was not a conditional
      delete of a key absent at that moment; there is none when all entries were such. */
  ghost predicate SavesLastMarked(log: seq<Mutation>, part: Part, cursor: int) {
    var s := Next(part.lastOffset);
    && 0 <= s <= cursor <= |log| && part.disk.saved == part.lastOffset
    && (s == 0 <==> part.lastOffset == None)
    && (s > 0 ==> !DeletesAbsent(Fold(map[], log[..s - 1]), log[s - 1]))
    && forall i :: s <= i < cursor ==> DeletesAbsent(Fold(map[], log[..i]), log[i])
  }

  lemma ReplicaSavesLastMarked(log: seq<Mutation>, r: Replica)
    requires r.Open? && GoodReplica(log, r, Quiet) && MarkedReplica(log, r)
    ensures SavesLastMarked(log, r.part, r.cursor)
  {
    hide GoodReplica;
    ExactReplica(log, r);
    var s := Next(r.part.lastOffset);
    forall i | s <= i < r.cursor
      ensures DeletesAbsent(Fold(map[], log[..i]), log[i])
    {
      GapIsIdle(log, r.part.disk.store, s, i, r.cursor);
    }
    assert s > 0 ==> r.part.lastOffset == Some(s - 1);
    assert r.part.disk.saved == r.part.lastOffset;
    assert s > 0 ==> !Idle(log, s - 1);
  }

  /** In every run whose snapshots are taken while the offset is still the one in their name, every open replica has
      saved just that offset. */
  lemma SavedIsLastMarked(run: seq<Step>, n: nat)
    requires Possible(INIT, run, Quiet)
    ensures Possible(INIT, run, Unguarded)
    ensures var w := After(INIT, run); var r := ReplicaOf(w, n);
            r.Open? ==> SavesLastMarked(w.log, r.part, r.cursor)
  {
    hide GoodReplica, MarkedReplica, SavesLastMarked;
    InvRun(INIT, run, Quiet);
    MarkedRun(INIT, run);
    var w := After(INIT, run);
    InvReplica(w, n, Quiet);
    if ReplicaOf(w, n).Open? {
      ReplicaSavesLastMarked(w.log, ReplicaOf(w, n));
    }
  }
}
