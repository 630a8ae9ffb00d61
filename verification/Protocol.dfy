/** One partition of the log, materialised by any number of replicas that share a bucket of snapshots.
    Replicas open, consume, crash, leave and take backups in any order. A backup reads its name first and
    its content later, with other steps in between. */
module Protocol {
  import opened Records
  import opened Replay
  import opened PartitionState

  /** A disk and its reach: one past the found offset that any of its content was recorded under.
      The reach is bookkeeping for the statements; no step depends on it. */
  datatype Content = Content(disk: Disk, reach: int)

  /** A backup that has read its name. What the replica was at that moment is kept for the statements. */
  datatype Pending = Pending(offset: int, before: Store, cursor: int)

  datatype Replica =
    | Closed(content: Content)
    | Open(part: Part, reach: int, cursor: int, pending: Option<Pending>)

  /** The log, the snapshots by the offset in their names, and the replicas by node. */
  datatype World = World(log: seq<Mutation>, backups: map<int, Content>, replicas: map<nat, Replica>)

  datatype Step =
    | Append(m: Mutation)
    | Assign(n: nat, found: int)  // 0: no snapshot found, or restoring is off; otherwise any snapshot
    | Consume(n: nat)
    | Crash(n: nat)
    | Leave(n: nat)
    | NameBackup(n: nat)
    | TakeSnapshot(n: nat)

  const INIT := World([], map[], map[])

  /** A node that has not held the partition has nothing on disk. */
  function ReplicaOf(w: World, n: nat): Replica {
    if n in w.replicas then w.replicas[n] else Closed(Content(EMPTY_DISK, 0))
  }

  /** What the replica consumed since its backup was named. */
  function Window(log: seq<Mutation>, r: Replica): seq<Mutation>
    requires r.Open? && r.pending.Some? && 0 <= r.pending.value.cursor <= r.cursor <= |log|
  {
    log[r.pending.value.cursor..r.cursor]
  }

  /** When a named backup may take its snapshot. Quiet: while the replica's offset is still the one in the name.
      Fuzzy: also when what was consumed since then is settled. Unguarded: at any time. */
  datatype Policy = Quiet | Fuzzy | Unguarded

  ghost predicate MaySnapshot(log: seq<Mutation>, r: Replica, policy: Policy) {
    r.Open? && r.pending.Some? &&
    var quiet := r.part.lastOffset == Some(r.pending.value.offset);
    match policy
    case Quiet => quiet
    case Fuzzy => quiet || (0 <= r.pending.value.cursor <= r.cursor <= |log| && Settled(Window(log, r)))
    case Unguarded => true
  }

  ghost predicate Enabled(w: World, s: Step, policy: Policy) {
    match s
    case Append(_) => true
    case Assign(n, found) => ReplicaOf(w, n).Closed? && (found == 0 || (found > 0 && found in w.backups))
    case Consume(n) =>
      var r := ReplicaOf(w, n);
      r.Open? && 0 <= r.cursor < |w.log| && OutcomeOf(r.part.disk.store, w.log[r.cursor]) != Failed
    case Crash(n) => ReplicaOf(w, n).Open?
    case Leave(n) => ReplicaOf(w, n).Open?
    case NameBackup(n) => ReplicaOf(w, n).Open? && ReplicaOf(w, n).part.lastOffset.Some?
    case TakeSnapshot(n) => MaySnapshot(w.log, ReplicaOf(w, n), policy)
  }

  function OpenReplica(local: Content, backups: map<int, Content>, found: int): Replica
    requires found == 0 || found in backups
  {
    var remote := if found == 0 then None else Some(Snapshot(found, backups[found].disk));
    var part := Recover(local.disk, remote);
    var reach := if UsesRemote(local.disk, remote) then backups[found].reach else local.reach;
    Open(part, reach, Next(part.lastOffset), None)
  }

  /** The consumer hands over the entry at the cursor and moves on, recorded or not. */
  function ConsumeOne(log: seq<Mutation>, r: Replica): Replica
    requires r.Open? && 0 <= r.cursor < |log|
  {
    var part := Handle(r.part, log[r.cursor], r.cursor);
    var recorded := OutcomeOf(r.part.disk.store, log[r.cursor]).RecordsOffset();
    r.(part := part, cursor := r.cursor + 1, reach := if recorded && r.reach <= r.cursor then r.cursor + 1 else r.reach)
  }

  function Do(w: World, s: Step): World
    requires Enabled(w, s, Unguarded)
  {
    match s
    case Append(m) => w.(log := w.log + [m])
    case Assign(n, found) => w.(replicas := w.replicas[n := OpenReplica(ReplicaOf(w, n).content, w.backups, found)])
    case Consume(n) => w.(replicas := w.replicas[n := ConsumeOne(w.log, ReplicaOf(w, n))])
    case Crash(n) =>
      var r := ReplicaOf(w, n);
      w.(replicas := w.replicas[n := Closed(Content(r.part.disk, r.reach))])
    case Leave(n) => w.(replicas := w.replicas[n := Closed(Content(EMPTY_DISK, 0))])
    case NameBackup(n) =>
      var r := ReplicaOf(w, n);
      var pending := Some(Pending(r.part.lastOffset.value, r.part.disk.store, r.cursor));
      w.(replicas := w.replicas[n := r.(pending := pending)])
    case TakeSnapshot(n) =>
      var r := ReplicaOf(w, n);
      World(w.log, w.backups[r.pending.value.offset := Content(r.part.disk, r.reach)],
            w.replicas[n := r.(pending := None)])
  }

  // Invariants.

  /** Replaying from `next` up to the reach turns this store into what the log stands for there. */
  ghost predicate Good(log: seq<Mutation>, store: Store, next: int, reach: int) {
    0 <= next <= reach <= |log| && Fold(store, log[next..reach]) == Fold(map[], log[..reach])
  }

  ghost predicate GoodContent(log: seq<Mutation>, c: Content, policy: Policy) {
    Good(log, c.disk.store, Next(c.disk.saved), c.reach) && (policy == Quiet ==> c.reach == Next(c.disk.saved))
  }

  ghost predicate GoodBackup(log: seq<Mutation>, offset: int, c: Content, policy: Policy) {
    GoodContent(log, c, policy) && Good(log, c.disk.store, offset + 1, c.reach) &&
      (policy == Quiet ==> c.reach == offset + 1)
  }

  /** The entries from the saved position to the cursor were conditional deletes that found nothing. */
  ghost predicate IdleGap(log: seq<Mutation>, store: Store, next: int, cursor: int) {
    0 <= next <= cursor <= |log| && AllUnrecorded(store, log[next..cursor])
  }

  /** Where the replica was when it last recorded an entry after the backup was named, or when it was named. */
  function Recorded(lastOffset: Option<int>, p: Pending): int {
    if Next(lastOffset) <= p.cursor then p.cursor else Next(lastOffset)
  }

  /** The store is what the entries recorded since the naming made of the store at the naming. */
  ghost predicate GoodPending(log: seq<Mutation>, store: Store, cursor: int, lastOffset: Option<int>, p: Pending) {
    && p.cursor <= Recorded(lastOffset, p) <= cursor <= |log|
    && (Next(lastOffset) <= p.cursor ==> lastOffset == Some(p.offset))
    && IdleGap(log, p.before, p.offset + 1, p.cursor)
    && store == Fold(p.before, log[p.cursor..Recorded(lastOffset, p)])
  }

  ghost predicate GoodReplica(log: seq<Mutation>, r: Replica, policy: Policy) {
    match r
    case Closed(c) => GoodContent(log, c, policy)
    case Open(part, reach, cursor, pending) =>
      && GoodContent(log, Content(part.disk, reach), policy)
      && Good(log, part.disk.store, Next(part.lastOffset), reach)
      && (policy == Quiet ==> reach == Next(part.lastOffset))
      && IdleGap(log, part.disk.store, Next(part.lastOffset), cursor)
      && (pending.Some? ==> GoodPending(log, part.disk.store, cursor, part.lastOffset, pending.value))
  }

  ghost predicate Inv(w: World, policy: Policy) {
    && (forall o :: o in w.backups ==> GoodBackup(w.log, o, w.backups[o], policy))
    && (forall n :: n in w.replicas ==> GoodReplica(w.log, w.replicas[n], policy))
  }

  lemma EmptyIsGood(log: seq<Mutation>, policy: Policy)
    ensures GoodContent(log, Content(EMPTY_DISK, 0), policy)
  {
  }

  lemma InvReplica(w: World, n: nat, policy: Policy)
    requires Inv(w, policy)
    ensures GoodReplica(w.log, ReplicaOf(w, n), policy)
  {
    EmptyIsGood(w.log, policy);
  }

  lemma SliceOfAppend(log: seq<Mutation>, m: Mutation, i: int, j: int)
    requires 0 <= i <= j <= |log|
    ensures (log + [m])[i..j] == log[i..j]
  {
  }

  lemma GoodAppend(log: seq<Mutation>, m: Mutation, store: Store, next: int, reach: int)
    requires Good(log, store, next, reach)
    ensures Good(log + [m], store, next, reach)
  {
    SliceOfAppend(log, m, next, reach);
    assert (log + [m])[..reach] == log[..reach];
  }

  lemma ReplicaAppend(log: seq<Mutation>, m: Mutation, r: Replica, policy: Policy)
    requires GoodReplica(log, r, policy)
    ensures GoodReplica(log + [m], r, policy)
  {
    match r
    case Closed(c) =>
      GoodAppend(log, m, c.disk.store, Next(c.disk.saved), c.reach);
    case Open(part, reach, cursor, pending) =>
      GoodAppend(log, m, part.disk.store, Next(part.disk.saved), reach);
      GoodAppend(log, m, part.disk.store, Next(part.lastOffset), reach);
      SliceOfAppend(log, m, Next(part.lastOffset), cursor);
      if pending.Some? {
        SliceOfAppend(log, m, pending.value.cursor, Recorded(part.lastOffset, pending.value));
        SliceOfAppend(log, m, pending.value.offset + 1, pending.value.cursor);
      }
  }

  lemma StepAppend(w: World, m: Mutation, policy: Policy)
    requires Inv(w, policy)
    ensures Inv(Do(w, Append(m)), policy)
  {
    forall o | o in w.backups
      ensures GoodBackup(w.log + [m], o, w.backups[o], policy)
    {
      var c := w.backups[o];
      GoodAppend(w.log, m, c.disk.store, Next(c.disk.saved), c.reach);
      GoodAppend(w.log, m, c.disk.store, o + 1, c.reach);
    }
    forall n | n in w.replicas
      ensures GoodReplica(w.log + [m], w.replicas[n], policy)
    {
      ReplicaAppend(w.log, m, w.replicas[n], policy);
    }
  }

  lemma StepAssign(w: World, n: nat, found: int, policy: Policy)
    requires Inv(w, policy) && Enabled(w, Assign(n, found), policy)
    ensures Inv(Do(w, Assign(n, found)), policy)
  {
    InvReplica(w, n, policy);
    var r := OpenReplica(ReplicaOf(w, n).content, w.backups, found);
    assert found != 0 ==> GoodBackup(w.log, found, w.backups[found], policy);
    assert w.log[Next(r.part.lastOffset)..r.cursor] == [];
    assert GoodReplica(w.log, r, policy);
  }

  /** An idle gap changes nothing, so the store is as good from its end as from its start. */
  lemma SkipGap(log: seq<Mutation>, store: Store, next: int, cursor: int, reach: int)
    requires Good(log, store, next, reach) && IdleGap(log, store, next, cursor)
    ensures cursor <= reach ==> Good(log, store, cursor, reach)
    ensures reach <= cursor ==> store == Fold(map[], log[..cursor])
  {
    hide Apply, OutcomeOf;
    var stop := if cursor <= reach then cursor else reach;
    var idle := log[next..stop];
    assert forall i :: 0 <= i < |idle| ==> idle[i] == log[next..cursor][i];
    UnrecordedFold(store, idle);
    FoldSplit(store, log, next, stop, reach);
    if reach <= cursor {
      var rest := log[reach..cursor];
      assert forall i :: 0 <= i < |rest| ==> rest[i] == log[next..cursor][i + reach - next];
      UnrecordedFold(store, rest);
      FoldSplit(map[], log, 0, reach, cursor);
      assert log[0..reach] == log[..reach] && log[0..cursor] == log[..cursor];
      assert log[reach..reach] == [];
    }
  }

  lemma RecordedIsGood(log: seq<Mutation>, store: Store, next: int, cursor: int, reach: int)
    requires Good(log, store, next, reach) && IdleGap(log, store, next, cursor) && cursor < |log|
    ensures Good(log, Apply(store, log[cursor]), cursor + 1, if reach <= cursor then cursor + 1 else reach)
  {
    SkipGap(log, store, next, cursor, reach);
    if reach <= cursor {
      FoldExtend(map[], log, 0, cursor);
      assert log[0..cursor] == log[..cursor] && log[0..cursor + 1] == log[..cursor + 1];
      assert log[cursor + 1..cursor + 1] == [];
    } else {
      assert log[cursor..reach][0] == log[cursor] && log[cursor..reach][1..] == log[cursor + 1..reach];
    }
  }

  /** The entries between the last recorded one and the cursor changed nothing. */
  lemma PendingAtCursor(log: seq<Mutation>, store: Store, cursor: int, lastOffset: Option<int>, p: Pending)
    requires GoodPending(log, store, cursor, lastOffset, p) && IdleGap(log, store, Next(lastOffset), cursor)
    ensures store == Fold(p.before, log[p.cursor..cursor])
    ensures AllUnrecorded(store, log[Recorded(lastOffset, p)..cursor])
  {
    var e := Recorded(lastOffset, p);
    var rest := log[e..cursor];
    assert forall i :: 0 <= i < |rest| ==> rest[i] == log[Next(lastOffset)..cursor][i + e - Next(lastOffset)];
    UnrecordedFold(store, rest);
    FoldSplit(p.before, log, p.cursor, e, cursor);
  }

  lemma PendingRecords(log: seq<Mutation>, store: Store, cursor: int, lastOffset: Option<int>, p: Pending)
    requires GoodPending(log, store, cursor, lastOffset, p) && IdleGap(log, store, Next(lastOffset), cursor) &&
             cursor < |log|
    ensures GoodPending(log, Apply(store, log[cursor]), cursor + 1, Some(cursor), p)
  {
    PendingAtCursor(log, store, cursor, lastOffset, p);
    FoldExtend(p.before, log, p.cursor, cursor);
  }

  lemma GapGrows(log: seq<Mutation>, store: Store, next: int, cursor: int)
    requires IdleGap(log, store, next, cursor) && cursor < |log| && OutcomeOf(store, log[cursor]) == Unrecorded
    ensures IdleGap(log, store, next, cursor + 1)
  {
    assert log[next..cursor + 1] == log[next..cursor] + [log[cursor]];
  }

  lemma ConsumeIsGood(log: seq<Mutation>, r: Replica, policy: Policy)
    requires r.Open? && GoodReplica(log, r, policy) && 0 <= r.cursor < |log|
    requires OutcomeOf(r.part.disk.store, log[r.cursor]) != Failed
    ensures GoodReplica(log, ConsumeOne(log, r), policy)
  {
    hide Apply, OutcomeOf, Fold;
    var store, c, a := r.part.disk.store, r.cursor, Next(r.part.lastOffset);
    var r' := ConsumeOne(log, r);
    if OutcomeOf(store, log[c]).RecordsOffset() {
      if r.pending.Some? {
        PendingRecords(log, store, c, r.part.lastOffset, r.pending.value);
      }
      RecordedIsGood(log, store, a, c, r.reach);
      assert log[c + 1..c + 1] == [];
    } else {
      UnappliedIsNoOp(store, log[c]);
      GapGrows(log, store, a, c);
    }
  }

  lemma UnrecordedAreDeletes(st: Store, g: seq<Mutation>)
    requires AllUnrecorded(st, g)
    ensures forall i :: 0 <= i < |g| ==> ConditionalDelete(g[i])
  {
    forall i | 0 <= i < |g|
      ensures ConditionalDelete(g[i])
    {
      assert OutcomeOf(st, g[i]) == Unrecorded;
    }
  }

  /** A snapshot whose content ran ahead of its name over a settled window is good from its name. */
  lemma FuzzyIsGood(log: seq<Mutation>, r: Replica)
    requires r.Open? && r.pending.Some? && GoodReplica(log, r, Fuzzy)
    requires r.part.lastOffset != Some(r.pending.value.offset) && Settled(Window(log, r))
    ensures Good(log, r.part.disk.store, r.pending.value.offset + 1, r.reach)
  {
    hide Replay.Settled;
    var p, c, store := r.pending.value, r.cursor, r.part.disk.store;
    var e := Next(r.part.lastOffset);
    var gap, w, rest := log[p.offset + 1..p.cursor], log[p.cursor..e], log[e..c];
    PendingAtCursor(log, store, c, r.part.lastOffset, p);
    UnrecordedAreDeletes(store, rest);
    assert Window(log, r) == w + rest;
    SettledPrefix(w, rest);
    ReplayWindow(p.before, gap, w);
    assert log[p.offset + 1..e] == gap + w;
    FoldSplit(store, log, p.offset + 1, e, r.reach);
  }

  lemma SnapshotIsGood(log: seq<Mutation>, r: Replica, policy: Policy)
    requires policy != Unguarded && GoodReplica(log, r, policy) && MaySnapshot(log, r, policy)
    ensures GoodBackup(log, r.pending.value.offset, Content(r.part.disk, r.reach), policy)
  {
    if r.part.lastOffset != Some(r.pending.value.offset) {
      FuzzyIsGood(log, r);
    }
  }

  /** A step that changes one replica keeps the invariant when the new replica is good. */
  lemma InvUpdate(w: World, n: nat, r: Replica, policy: Policy)
    requires Inv(w, policy) && GoodReplica(w.log, r, policy)
    ensures Inv(w.(replicas := w.replicas[n := r]), policy)
  {
  }

  lemma StepNameBackup(w: World, n: nat, policy: Policy)
    requires Inv(w, policy) && Enabled(w, NameBackup(n), policy)
    ensures Inv(Do(w, NameBackup(n)), policy)
  {
    InvReplica(w, n, policy);
    var r := ReplicaOf(w, n);
    assert w.log[r.cursor..r.cursor] == [];
    InvUpdate(w, n, r.(pending := Some(Pending(r.part.lastOffset.value, r.part.disk.store, r.cursor))), policy);
  }

  lemma StepTakeSnapshot(w: World, n: nat, policy: Policy)
    requires policy != Unguarded && Inv(w, policy) && Enabled(w, TakeSnapshot(n), policy)
    ensures Inv(Do(w, TakeSnapshot(n)), policy)
  {
    InvReplica(w, n, policy);
    var r := ReplicaOf(w, n);
    SnapshotIsGood(w.log, r, policy);
    InvUpdate(w, n, r.(pending := None), policy);
  }

  lemma InvStep(w: World, s: Step, policy: Policy)
    requires policy != Unguarded && Inv(w, policy) && Enabled(w, s, policy)
    ensures Inv(Do(w, s), policy)
  {
    match s
    case Append(m) =>
      StepAppend(w, m, policy);
    case Assign(n, found) =>
      StepAssign(w, n, found, policy);
    case Consume(n) =>
      InvReplica(w, n, policy);
      ConsumeIsGood(w.log, ReplicaOf(w, n), policy);
      InvUpdate(w, n, ConsumeOne(w.log, ReplicaOf(w, n)), policy);
    case Crash(n) =>
      InvReplica(w, n, policy);
      InvUpdate(w, n, Closed(Content(ReplicaOf(w, n).part.disk, ReplicaOf(w, n).reach)), policy);
    case Leave(n) =>
      EmptyIsGood(w.log, policy);
      InvUpdate(w, n, Closed(Content(EMPTY_DISK, 0)), policy);
    case NameBackup(n) =>
      StepNameBackup(w, n, policy);
    case TakeSnapshot(n) =>
      StepTakeSnapshot(w, n, policy);
  }

  // Runs.

  /** Every step of the run can happen when its turn comes. */
  ghost predicate Possible(w: World, run: seq<Step>, policy: Policy)
    decreases run
  {
    run == [] || (Enabled(w, run[0], policy) && Possible(Do(w, run[0]), run[1..], policy))
  }

  function After(w: World, run: seq<Step>): World
    requires Possible(w, run, Unguarded)
    decreases run
  {
    if run == [] then w else After(Do(w, run[0]), run[1..])
  }

  lemma {:induction false} InvRun(w: World, run: seq<Step>, policy: Policy)
    requires policy != Unguarded && Inv(w, policy) && Possible(w, run, policy)
    ensures Possible(w, run, Unguarded) && Inv(After(w, run), policy)
    decreases run
  {
    if run != [] {
      InvStep(w, run[0], policy);
      InvRun(Do(w, run[0]), run[1..], policy);
    }
  }

  /** In every run whose snapshots are taken while the offset is still the one in their name: an open replica holds
      the fold of the log up to its cursor, and equally up to the position where the log would be resumed. */
  lemma ExactRuns(run: seq<Step>, n: nat)
    requires Possible(INIT, run, Quiet)
    ensures Possible(INIT, run, Unguarded)
    ensures var w := After(INIT, run); var r := ReplicaOf(w, n);
            r.Open? ==>
              && 0 <= Next(r.part.lastOffset) <= r.cursor <= |w.log|
              && r.part.disk.store == Fold(map[], w.log[..r.cursor])
              && r.part.disk.store == Fold(map[], w.log[..Next(r.part.lastOffset)])
  {
    InvRun(INIT, run, Quiet);
    var w := After(INIT, run);
    InvReplica(w, n, Quiet);
    var r := ReplicaOf(w, n);
    if r.Open? {
      var a := Next(r.part.lastOffset);
      SkipGap(w.log, r.part.disk.store, a, r.cursor, r.reach);
      assert w.log[a..r.reach] == [];
    }
  }

  /** In every run, fuzzy snapshots included: replaying the log from an open replica's cursor reaches the fold of
      the log at the replica's reach, and from there on the replica holds the fold of the log up to its cursor.
      A replica that has caught up with the log holds the fold of all of it. */
  lemma FuzzyRuns(run: seq<Step>, n: nat)
    requires Possible(INIT, run, Fuzzy)
    ensures Possible(INIT, run, Unguarded)
    ensures var w := After(INIT, run); var r := ReplicaOf(w, n);
            r.Open? ==>
              && 0 <= r.cursor <= |w.log| && 0 <= r.reach <= |w.log|
              && (r.cursor <= r.reach ==>
                    Fold(r.part.disk.store, w.log[r.cursor..r.reach]) == Fold(map[], w.log[..r.reach]))
              && (r.reach <= r.cursor ==> r.part.disk.store == Fold(map[], w.log[..r.cursor]))
              && (r.cursor == |w.log| ==> r.part.disk.store == Fold(map[], w.log))
  {
    InvRun(INIT, run, Fuzzy);
    var w := After(INIT, run);
    InvReplica(w, n, Fuzzy);
    var r := ReplicaOf(w, n);
    if r.Open? {
      SkipGap(w.log, r.part.disk.store, Next(r.part.lastOffset), r.cursor, r.reach);
      assert w.log[..|w.log|] == w.log;
    }
  }

  /** Two replicas, whatever each went through, hold the same records whenever they have consumed the same entries. */
  lemma ReplicasConverge(run: seq<Step>, n: nat, o: nat)
    requires Possible(INIT, run, Quiet)
    ensures Possible(INIT, run, Unguarded)
    ensures var w := After(INIT, run); var r, q := ReplicaOf(w, n), ReplicaOf(w, o);
            r.Open? && q.Open? && r.cursor == q.cursor ==> r.part.disk.store == q.part.disk.store
  {
    ExactRuns(run, n);
    ExactRuns(run, o);
  }

  // The runs of the code itself, which takes a named backup's snapshot at any time.

  /** Every stretch of the log is settled. */
  ghost predicate AlwaysSettled(log: seq<Mutation>) {
    forall i: nat, j: nat :: i <= j <= |log| ==> Settled(log[i..j])
  }

  lemma {:induction false} LogGrows(w: World, run: seq<Step>)
    requires Possible(w, run, Unguarded)
    ensures w.log <= After(w, run).log
    decreases run
  {
    if run != [] {
      LogGrows(Do(w, run[0]), run[1..]);
    }
  }

  lemma SnapshotIsFuzzy(w: World, n: nat, log: seq<Mutation>)
    requires Inv(w, Fuzzy) && Enabled(w, TakeSnapshot(n), Unguarded) && w.log <= log && AlwaysSettled(log)
    ensures Enabled(w, TakeSnapshot(n), Fuzzy)
  {
    hide Settled;
    InvReplica(w, n, Fuzzy);
    var r := ReplicaOf(w, n);
    var i, j := r.pending.value.cursor, r.cursor;
    assert Window(w.log, r) == log[i..j];
  }

  lemma {:induction false} UnguardedIsFuzzy(w: World, run: seq<Step>)
    requires Inv(w, Fuzzy) && Possible(w, run, Unguarded) && AlwaysSettled(After(w, run).log)
    ensures Possible(w, run, Fuzzy)
    decreases run
  {
    hide AlwaysSettled, Inv;
    if run != [] {
      var s := run[0];
      if s.TakeSnapshot? {
        LogGrows(w, run);
        SnapshotIsFuzzy(w, s.n, After(w, run).log);
      }
      InvStep(w, s, Fuzzy);
      UnguardedIsFuzzy(Do(w, s), run[1..]);
    }
  }

  /** Whenever snapshots are taken: on a log all of whose stretches are settled, a replica that has passed its reach
      holds the fold of the log up to its cursor, and one that has caught up with the log the fold of all of it. */
  lemma UnguardedRuns(run: seq<Step>, n: nat)
    requires Possible(INIT, run, Unguarded) && AlwaysSettled(After(INIT, run).log)
    ensures var w := After(INIT, run); var r := ReplicaOf(w, n);
            r.Open? ==>
              && 0 <= r.cursor <= |w.log| && 0 <= r.reach <= |w.log|
              && (r.reach <= r.cursor ==> r.part.disk.store == Fold(map[], w.log[..r.cursor]))
              && (r.cursor == |w.log| ==> r.part.disk.store == Fold(map[], w.log))
  {
    UnguardedIsFuzzy(INIT, run);
    FuzzyRuns(run, n);
  }

  lemma UnconditionalIsAlwaysSettled(log: seq<Mutation>)
    requires forall i :: 0 <= i < |log| ==> Unconditional(log[i])
    ensures AlwaysSettled(log)
  {
    forall i: nat, j: nat | i <= j <= |log|
      ensures Settled(log[i..j])
    {
      UnconditionalIsSettled(log[i..j]);
    }
  }

  /** On a log of unconditional mutations, any two replicas that have consumed the same entries, and passed what their
      snapshots held, hold the same records, and so do all replicas that have caught up. */
  lemma UnconditionalRunsConverge(run: seq<Step>, n: nat, o: nat)
    requires Possible(INIT, run, Unguarded)
    requires forall i :: 0 <= i < |After(INIT, run).log| ==> Unconditional(After(INIT, run).log[i])
    ensures var w := After(INIT, run); var r, q := ReplicaOf(w, n), ReplicaOf(w, o);
            r.Open? && q.Open? && r.cursor == q.cursor && r.reach <= r.cursor && q.reach <= q.cursor ==>
              r.part.disk.store == q.part.disk.store
    ensures var w := After(INIT, run); var r := ReplicaOf(w, n);
            r.Open? && r.cursor == |w.log| ==> r.part.disk.store == Fold(map[], w.log)
  {
    hide AlwaysSettled;
    UnconditionalIsAlwaysSettled(After(INIT, run).log);
    UnguardedRuns(run, n);
    UnguardedRuns(run, o);
  }

  lemma RunCons(w: World, s: Step, rest: seq<Step>)
    requires Enabled(w, s, Unguarded) && Possible(Do(w, s), rest, Unguarded)
    ensures Possible(w, [s] + rest, Unguarded) && After(w, [s] + rest) == After(Do(w, s), rest)
  {
    assert ([s] + rest)[1..] == rest;
  }

  lemma {:induction false} RunConcat(w: World, a: seq<Step>, b: seq<Step>)
    requires Possible(w, a, Unguarded) && Possible(After(w, a), b, Unguarded)
    ensures Possible(w, a + b, Unguarded) && After(w, a + b) == After(After(w, a), b)
    decreases a
  {
    if a == [] {
      assert a + b == b;
    } else {
      RunConcat(Do(w, a[0]), a[1..], b);
      assert a + b == [a[0]] + (a[1..] + b);
      RunCons(w, a[0], a[1..] + b);
    }
  }
}
