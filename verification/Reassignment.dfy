/** What reconciling with the group's assignment means for the protocol of a partition, and for the whole group. */
module Reassignment {
  import opened Records
  import opened Backups
  import opened Partitions
  import opened Managers
  import opened PartitionState
  import opened Protocol
  import opened Consumers

  function Disks(backups: map<int, Content>): map<int, Disk> {
    map o | o in backups :: backups[o].disk
  }

  /** A snapshot that the partition may be opened from, or none. */
  ghost predicate IsBackup(w: World, found: Option<Snapshot>) {
    found.Some? ==>
      && found.value.offset > 0 && found.value.offset in w.backups
      && found.value.content == w.backups[found.value.offset].disk
  }

  lemma NewestIsBackup(w: World, found: Option<Snapshot>)
    requires IsNewest(Disks(w.backups), found)
    ensures IsBackup(w, found)
  {
    assert found.Some? ==> found.value.offset in Disks(w.backups);
  }

  function OffsetOf(found: Option<Snapshot>): int {
    if found == None then 0 else found.value.offset
  }

  /** Opening a partition from the local disk and any of its snapshots, and resuming behind the offset it reports, is
      the protocol's assignment step. */
  lemma OpeningIsAssign(w: World, n: nat, found: Option<Snapshot>, policy: Policy)
    requires ReplicaOf(w, n).Closed? && IsBackup(w, found)
    ensures Enabled(w, Assign(n, OffsetOf(found)), policy)
    ensures var r := ReplicaOf(Do(w, Assign(n, OffsetOf(found))), n);
            && r.Open? && r.part == Recover(ReplicaOf(w, n).content.disk, found)
            && r.cursor == Next(r.part.lastOffset) && r.pending == None
  {
  }

  /** So a partition that is opened from good content is good where fetching it resumes. */
  lemma OpenedIsGood(w: World, n: nat, found: Option<Snapshot>, policy: Policy)
    requires policy != Unguarded && Inv(w, policy) && ReplicaOf(w, n).Closed? && IsBackup(w, found)
    ensures var part := Recover(ReplicaOf(w, n).content.disk, found);
            exists reach :: GoodReplica(w.log, Open(part, reach, Next(part.lastOffset), None), policy)
  {
    OpeningIsAssign(w, n, found, policy);
    var step := Assign(n, OffsetOf(found));
    InvStep(w, step, policy);
    InvReplica(Do(w, step), n, policy);
    var r := ReplicaOf(Do(w, step), n);
    assert r == Open(r.part, r.reach, Next(r.part.lastOffset), None);
  }

  /** The listing shows what the protocol's backups are, if the pass looks. */
  ghost predicate ShowsBackups(w: World, bucket: Bucket, namespace: string, id: nat, offsets: set<nat>)
    requires ValidBucket(bucket)
  {
    bucket.restore ==>
      && Lists(bucket.pages(id), namespace, id, offsets)
      && Snapshots(bucket.objects, namespace, id, offsets) == Disks(w.backups)
  }

  /** What a pass opens a partition from is one of its backups, or its local disk alone. */
  lemma FoundIsBackup(w: World, bucket: Bucket, namespace: string, id: nat, offsets: set<nat>, latest: Latest)
    requires ValidBucket(bucket) && ShowsBackups(w, bucket, namespace, id, offsets) && Finds(bucket, id, latest)
    ensures IsBackup(w, SnapshotOf(bucket, latest))
  {
    hide Lists, Snapshots;
    if bucket.restore {
      OwnBackupIsFound(bucket, namespace, id, offsets, latest);
      NewestIsBackup(w, SnapshotOf(bucket, latest));
    }
  }

  /** A partition that a pass newly opens, on a node with good content on its disk, satisfies the fold invariant at the
      offset that fetching it resumes at. */
  lemma PassOpensGood(w: World, n: nat, policy: Policy, bucket: Bucket, namespace: string, id: nat, offsets: set<nat>,
                      part: Part)
    requires policy != Unguarded && Inv(w, policy) && ReplicaOf(w, n).Closed?
    requires ValidBucket(bucket) && ShowsBackups(w, bucket, namespace, id, offsets)
    requires Opens(part, ReplicaOf(w, n).content.disk, bucket, id)
    ensures exists reach :: GoodReplica(w.log, Open(part, reach, Next(part.lastOffset), None), policy)
  {
    hide Finds, CannotOpen, SnapshotOf, ShowsBackups, GoodReplica, Inv;
    var local := ReplicaOf(w, n).content.disk;
    ObjectsAreValid(bucket);
    var latest :| Finds(bucket, id, latest) && !CannotOpen(local, bucket, latest)
                  && part == Recover(local, SnapshotOf(bucket, latest));
    FoundIsBackup(w, bucket, namespace, id, offsets, latest);
    OpenedIsGood(w, n, SnapshotOf(bucket, latest), policy);
  }

  /** All the partitions that a pass adds are such, each with its own log and replicas. */
  lemma PassAddsGood(worlds: map<nat, World>, n: nat, policy: Policy, bucket: Bucket, namespace: string,
                     offsets: map<nat, set<nat>>, disks: map<nat, Db>, added: map<nat, Part>)
    requires policy != Unguarded && ValidBucket(bucket) && ValidDisks(disks) && AllOpen(added, disks, bucket)
    requires added.Keys <= worlds.Keys && worlds.Keys == offsets.Keys
    requires forall p :: p in worlds ==>
               && Inv(worlds[p], policy) && ReplicaOf(worlds[p], n).Closed?
               && ReplicaOf(worlds[p], n).content.disk == OnDisk(disks, p)
               && ShowsBackups(worlds[p], bucket, namespace, p, offsets[p])
    ensures forall p :: p in added ==>
              exists reach ::
                GoodReplica(worlds[p].log, Open(added[p], reach, Resets(added)[p], None), policy)
  {
    hide Inv, ShowsBackups, OnDisk, GoodReplica, Opens, ValidBucket, ValidDisks, ReplicaOf;
    forall p | p in added
      ensures exists reach :: GoodReplica(worlds[p].log, Open(added[p], reach, Resets(added)[p], None), policy)
    {
      PassOpensGood(worlds[p], n, policy, bucket, namespace, p, offsets[p], added[p]);
      var reach :| GoodReplica(worlds[p].log, Open(added[p], reach, Next(added[p].lastOffset), None), policy);
      assert Resets(added)[p] == Next(added[p].lastOffset);
    }
  }

  // The group.

  /** Node by node, a set of partitions: those open, or those assigned. */
  type Sets = map<nat, set<nat>>

  /** Every partition is assigned to one node. */
  ghost predicate AssignsOnce(assignment: Sets, all: set<nat>) {
    && (forall n :: n in assignment ==> assignment[n] <= all)
    && (forall m, n :: m in assignment && n in assignment && m != n ==> assignment[m] !! assignment[n])
    && (forall p :: p in all ==> exists n :: n in assignment && p in assignment[n])
  }

  /** The partitions open on a node after its pass. A member that is assigned no partition is assigned no topic. */
  lemma PassKeys(had: map<nat, Part>, added: map<nat, Part>, mine: set<nat>)
    requires added.Keys == mine - had.Keys
    ensures mine != {} ==> (Restricted(had, mine) + added).Keys == Reconciled(had.Keys, mine)
  {
  }

  /** The nodes make their passes in this order. */
  function Passes(open: Sets, assignment: Sets, passes: seq<nat>): (after: Sets)
    requires open.Keys == assignment.Keys && forall i :: 0 <= i < |passes| ==> passes[i] in open
    ensures after.Keys == open.Keys
    decreases passes
  {
    if passes == [] then open
    else Passes(open[passes[0] := Reconciled(open[passes[0]], assignment[passes[0]])], assignment, passes[1..])
  }

  lemma {:induction false} PassesReach(open: Sets, assignment: Sets, passes: seq<nat>, n: nat)
    requires open.Keys == assignment.Keys && forall i :: 0 <= i < |passes| ==> passes[i] in open
    requires n in open
    ensures Passes(open, assignment, passes)[n] == if n in passes then Reconciled(open[n], assignment[n]) else open[n]
    decreases passes
  {
    if passes != [] {
      assert passes == [passes[0]] + passes[1..];
      PassesReach(open[passes[0] := Reconciled(open[passes[0]], assignment[passes[0]])], assignment, passes[1..], n);
    }
  }

  ghost predicate OpenOnlyOn(open: Sets, p: nat, n: nat) {
    n in open && p in open[n] && forall m :: m in open && p in open[m] ==> m == n
  }

  ghost predicate OpenOnce(open: Sets, p: nat) {
    exists n :: OpenOnlyOn(open, p, n)
  }

  /** Once every node has made a pass under a fixed assignment, each partition is open on exactly one node, if and
      only if no node without an assignment had a partition open: such a node drops nothing. */
  lemma OpenOnceIff(open: Sets, assignment: Sets, passes: seq<nat>, all: set<nat>)
    requires open.Keys == assignment.Keys && AssignsOnce(assignment, all)
    requires forall n :: n in open <==> n in passes
    ensures (forall p :: p in all ==> OpenOnce(Passes(open, assignment, passes), p))
       <==> (forall n :: n in open && assignment[n] == {} ==> open[n] !! all)
  {
    var after := Passes(open, assignment, passes);
    forall n | n in open
      ensures after[n] == Reconciled(open[n], assignment[n])
    {
      PassesReach(open, assignment, passes, n);
    }
    forall p | p in all
      ensures OpenOnce(after, p) <==> forall n :: n in open && assignment[n] == {} ==> p !in open[n]
    {
      OneOwner(open, assignment, after, p);
    }
    if forall p :: p in all ==> OpenOnce(after, p) {
      forall n | n in open && assignment[n] == {}
        ensures open[n] !! all
      {
        assert forall p :: p in all ==> p !in open[n];
      }
    }
  }

  lemma OneOwner(open: Sets, assignment: Sets, after: Sets, p: nat)
    requires open.Keys == assignment.Keys == after.Keys
    requires exists n :: n in assignment && p in assignment[n]
    requires forall m, n :: m in assignment && n in assignment && m != n ==> assignment[m] !! assignment[n]
    requires forall n :: n in open ==> after[n] == Reconciled(open[n], assignment[n])
    ensures OpenOnce(after, p) <==> forall n :: n in open && assignment[n] == {} ==> p !in open[n]
  {
    var owner :| owner in assignment && p in assignment[owner];
    assert p in after[owner];
    forall m | m in open && m != owner
      ensures p in after[m] <==> assignment[m] == {} && p in open[m]
    {
      assert assignment[m] !! assignment[owner];
    }
    if forall n :: n in open && assignment[n] == {} ==> p !in open[n] {
      assert OpenOnlyOn(after, p, owner);
    }
    if OpenOnce(after, p) {
      var n :| OpenOnlyOn(after, p, n);
      assert n == owner;
    }
  }
}
