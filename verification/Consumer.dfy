/** The log consumer of a node: polling batches of mutations, and reconciling with the group's assignment. */
module Consumers {
  import opened Records
  import opened Backups
  import opened PartitionState
  import opened Partitions
  import opened Managers
  import opened Batches
  import opened Sequences

  /** What the group's metadata says about this member: nothing, or the partitions it has in each assigned topic. */
  datatype Metadata = Unavailable | Assigned(topics: seq<seq<nat>>)

  /** The elements of a that are not in b. */
  function Minus(a: seq<nat>, b: seq<nat>): (r: seq<nat>)
    ensures forall p :: p in r <==> p in a && p !in b
  {
    if a == [] then []
    else
      assert a == [a[0]] + a[1..];
      (if a[0] in b then [] else [a[0]]) + Minus(a[1..], b)
  }

  lemma {:induction false} MinusIsDistinct(a: seq<nat>, b: seq<nat>)
    requires NoDuplicates(a)
    ensures NoDuplicates(Minus(a, b))
  {
    if a != [] {
      assert forall i :: 0 <= i < |a[1..]| ==> a[1..][i] == a[i + 1];
      MinusIsDistinct(a[1..], b);
      assert a[0] !in a[1..];
    }
  }

  /** The partitions open after a pass: those assigned, but all of the old ones when no topic is assigned. */
  function Reconciled(open: set<nat>, assignment: set<nat>): set<nat> {
    if assignment == {} then open else assignment
  }

  /** The partition is what opening makes of its local disk and of the latest backup in the bucket. */
  ghost predicate Opens(part: Part, local: Disk, bucket: Bucket, id: nat)
    requires ValidBucket(bucket)
  {
    exists latest ::
      Finds(bucket, id, latest) && !CannotOpen(local, bucket, latest) &&
        part == Recover(local, SnapshotOf(bucket, latest))
  }

  /** The latest backup would have to be restored and cannot be downloaded. */
  ghost predicate Fails(local: Disk, bucket: Bucket, id: nat)
    requires ValidBucket(bucket)
  {
    exists latest :: Finds(bucket, id, latest) && CannotOpen(local, bucket, latest)
  }

  ghost predicate SomeFails(news: set<nat>, disks: map<nat, Db>, bucket: Bucket)
    requires ValidDisks(disks) && ValidBucket(bucket)
  {
    exists p :: p in news && Fails(OnDisk(disks, p), bucket, p)
  }

  lemma OneFails(news: set<nat>, disks: map<nat, Db>, bucket: Bucket, id: nat, latest: Latest)
    requires ValidDisks(disks) && ValidBucket(bucket) && id in news
    requires Finds(bucket, id, latest) && CannotOpen(OnDisk(disks, id), bucket, latest)
    ensures SomeFails(news, disks, bucket)
  {
    hide ValidBucket, Finds, CannotOpen, OnDisk, ValidDisks;
    assert Fails(OnDisk(disks, id), bucket, id);
  }

  /** A partition opens or fails to open, never both. */
  lemma OpensOrFails(part: Part, local: Disk, bucket: Bucket, id: nat)
    requires ValidBucket(bucket) && Opens(part, local, bucket, id)
    ensures !Fails(local, bucket, id)
  {
    hide Finds, CannotOpen, SnapshotOf;
    var m :| Finds(bucket, id, m) && !CannotOpen(local, bucket, m);
    forall l | Finds(bucket, id, l)
      ensures l == m
    {
      FindsOne(bucket, id, l, m);
    }
  }

  ghost predicate AllOpen(view: map<nat, Part>, disks: map<nat, Db>, bucket: Bucket)
    requires ValidDisks(disks) && ValidBucket(bucket)
  {
    forall p :: p in view ==> Opens(view[p], OnDisk(disks, p), bucket, p)
  }

  function Resets(view: map<nat, Part>): map<nat, int> {
    map p | p in view :: Next(view[p].lastOffset)
  }

  function Restricted(view: map<nat, Part>, ps: set<nat>): map<nat, Part> {
    map p | p in view && p in ps :: view[p]
  }

  /** A node's partitions and disks after `done` were added to what it had. */
  ghost predicate Adding(had: map<nat, Part>, disks: map<nat, Db>, bucket: Bucket,
                         done: set<nat>, view: map<nat, Part>, left: map<nat, Db>, added: map<nat, Part>,
                         resets: map<nat, int>)
    requires ValidDisks(disks) && ValidBucket(bucket)
  {
    && view == had + added && added.Keys == done && left == disks - done
    && AllOpen(added, disks, bucket)
    && resets == Resets(added)
  }

  lemma AddingStarts(had: map<nat, Part>, disks: map<nat, Db>, bucket: Bucket)
    requires ValidDisks(disks) && ValidBucket(bucket)
    ensures Adding(had, disks, bucket, {}, had, disks, map[], map[])
  {
  }

  lemma AddingCanContinue(had: map<nat, Part>, disks: map<nat, Db>, bucket: Bucket,
                          done: set<nat>, view: map<nat, Part>, left: map<nat, Db>, added: map<nat, Part>,
                          resets: map<nat, int>, id: nat)
    requires ValidDisks(disks) && ValidBucket(bucket)
    requires Adding(had, disks, bucket, done, view, left, added, resets) && id !in had && id !in done
    ensures id !in view && ValidDisks(left) && OnDisk(left, id) == OnDisk(disks, id)
  {
  }

  lemma OpensNow(local: Disk, bucket: Bucket, id: nat, latest: Latest)
    requires ValidBucket(bucket) && Finds(bucket, id, latest) && !CannotOpen(local, bucket, latest)
    ensures Opens(Recover(local, SnapshotOf(bucket, latest)), local, bucket, id)
  {
  }

  lemma AddingContinues(had: map<nat, Part>, disks: map<nat, Db>, bucket: Bucket,
                        done: set<nat>, view: map<nat, Part>, left: map<nat, Db>, added: map<nat, Part>,
                        resets: map<nat, int>, id: nat, part: Part)
    requires ValidDisks(disks) && ValidBucket(bucket)
    requires Adding(had, disks, bucket, done, view, left, added, resets) && Opens(part, OnDisk(disks, id), bucket, id)
    ensures Adding(had, disks, bucket, done + {id}, view[id := part], left - {id}, added[id := part],
                   resets[id := Next(part.lastOffset)])
  {
    hide Opens, Next, OnDisk, ValidBucket, ValidDisks;
  }

  lemma AddingEnds(had: map<nat, Part>, disks: map<nat, Db>, bucket: Bucket,
                   done: set<nat>, view: map<nat, Part>, left: map<nat, Db>, added: map<nat, Part>,
                   resets: map<nat, int>)
    requires ValidDisks(disks) && ValidBucket(bucket)
    requires Adding(had, disks, bucket, done, view, left, added, resets)
    ensures view == had + added && added.Keys == done && left == disks - done
    ensures AllOpen(added, disks, bucket) && resets == Resets(added)
  {
  }

  class LogConsumer {
    const manager: PartitionManager
    var ready: bool
    /** Where fetching each partition was last told to continue. */
    var resumeAt: map<nat, int>

    constructor (manager: PartitionManager)
      ensures this.manager == manager && !ready && resumeAt == map[]
    {
      this.manager := manager;
      ready := false;
      resumeAt := map[];
    }

    /** One worker: its partition's messages in order, up to the first that fails. */
    method HandleBatch(id: nat, records: seq<Fetched>) returns (ok: bool)
      requires manager.Valid()
      modifies if id in manager.partitions then {manager.partitions[id]} else {}
      ensures manager.Valid()
      ensures manager.View() ==
              if id in old(manager.View()) then old(manager.View())[id := Batch(old(manager.View())[id], records)]
                else old(manager.View())
      ensures ok <==> records == [] || (id in old(manager.View()) && BatchSucceeds(old(manager.View())[id], records))
    {
      hide PartitionManager.View, PartitionManager.Valid, OutcomeOf;
      ghost var view := manager.View();
      for i := 0 to |records|
        invariant manager.Valid() && manager.View().Keys == view.Keys
        invariant id !in view ==> i == 0 && manager.View() == view
        invariant id in view ==>
                    && manager.View() == view[id := manager.View()[id]]
                    && Batch(manager.View()[id], records[i..]) == Batch(view[id], records)
                    && (BatchSucceeds(manager.View()[id], records[i..]) <==> BatchSucceeds(view[id], records))
      {
        assert records[i..][1..] == records[i + 1..];
        ok := manager.HandleMutation(id, records[i].m, records[i].offset);
        if !ok {
          return;
        }
      }
      ok := true;
    }

    /** All fetched partitions, one worker each, in any order: the outcome does not depend on it. */
    method PollRecords(fetches: map<nat, seq<Fetched>>) returns (ok: bool)
      requires manager.Valid()
      modifies manager.partitions.Values
      ensures manager.Valid()
      ensures manager.View() == Polled(old(manager.View()), fetches, fetches.Keys)
      ensures ok <==> forall p :: p in fetches ==>
                        || fetches[p] == []
                        || (p in old(manager.View()) && BatchSucceeds(old(manager.View())[p], fetches[p]))
    {
      hide PartitionManager.View, PartitionManager.Valid, Batch, BatchSucceeds;
      ghost var view := manager.View();
      ok := true;
      var rest := fetches.Keys;
      while rest != {}
        invariant rest <= fetches.Keys && manager.Valid()
        invariant manager.View() == Polled(view, fetches, fetches.Keys - rest)
        invariant ok <==> forall p :: p in fetches && p !in rest ==>
                            fetches[p] == [] || (p in view && BatchSucceeds(view[p], fetches[p]))
        decreases rest
      {
        var part :| part in rest;
        assert part in view ==> manager.View()[part] == view[part];
        var succeeded := HandleBatch(part, fetches[part]);
        rest := rest - {part};
        ok := ok && succeeded;
      }
    }

    /** Opens the new partitions and says where to resume each; failing to open one is fatal. */
    method AddAll(news: seq<nat>, bucket: Bucket)
      returns (fatal: bool, resets: map<nat, int>, ghost added: map<nat, Part>)
      requires manager.Valid() && ValidBucket(bucket)
      requires NoDuplicates(news) && Elements(news) !! manager.View().Keys
      modifies manager
      ensures manager.Valid() && ValidDisks(old(manager.disks))
      ensures fatal ==> SomeFails(Elements(news), old(manager.disks), bucket)
      ensures !fatal ==>
                && manager.disks == old(manager.disks) - Elements(news)
                && manager.View() == old(manager.View()) + added && added.Keys == Elements(news)
                && AllOpen(added, old(manager.disks), bucket)
                && resets == Resets(added)
    {
      hide PartitionManager.View, Adding, SomeFails, ValidBucket, Finds, CannotOpen, Recover, SnapshotOf, OnDisk, Next;
      ghost var had, disks := manager.View(), manager.disks;
      fatal, added, resets := false, map[], map[];
      AddingStarts(had, disks, bucket);
      assert Elements(news[..0]) == {};
      for i := 0 to |news|
        invariant manager.Valid()
        invariant Adding(had, disks, bucket, Elements(news[..i]), manager.View(), manager.disks, added, resets)
      {
        var id := news[i];
        ghost var done, view, left := Elements(news[..i]), manager.View(), manager.disks;
        assert Elements(news[..i + 1]) == done + {id} && id !in done;
        AddingCanContinue(had, disks, bucket, done, view, left, added, resets, id);
        var result, latest := manager.AddPartition(id, bucket);
        if result == OpenFailed {
          OneFails(Elements(news), disks, bucket, id, latest);
          return true, resets, added;
        }
        OpensNow(OnDisk(disks, id), bucket, id, latest);
        AddingContinues(had, disks, bucket, done, view, left, added, resets, id, manager.View()[id]);
        added := added[id := manager.View()[id]];
        resets := resets[id := Next(result.offset)];
      }
      assert news[..|news|] == news;
      AddingEnds(had, disks, bucket, Elements(news), manager.View(), manager.disks, added, resets);
    }

    method RemoveAll(gones: seq<nat>)
      requires manager.Valid() && NoDuplicates(gones) && Elements(gones) <= manager.View().Keys
      modifies manager
      ensures manager.Valid() && manager.View() == old(manager.View()) - Elements(gones) &&
              manager.disks == old(manager.disks)
    {
      hide PartitionManager.View, PartitionManager.Valid;
      for i := 0 to |gones|
        invariant manager.Valid() && manager.View() == old(manager.View()) - Elements(gones[..i]) &&
                  manager.disks == old(manager.disks)
      {
        assert gones[..i + 1] == gones[..i] + [gones[i]];
        manager.RemovePartition(gones[i]);
      }
      assert gones[..|gones|] == gones;
    }

    method Compare(mine: seq<nat>) returns (news: seq<nat>, gones: seq<nat>)
      requires manager.Valid() && NoDuplicates(mine)
      ensures NoDuplicates(news) && Elements(news) == Elements(mine) - manager.View().Keys
      ensures NoDuplicates(gones) && Elements(gones) == manager.View().Keys - Elements(mine)
    {
      var held := manager.GetPartitionIDs();
      news, gones := Minus(mine, held), Minus(held, mine);
      MinusIsDistinct(mine, held);
      MinusIsDistinct(held, mine);
    }

    /** With news, their positions are set, and the consumer is ready. */
    method Resume(news: seq<nat>, resets: map<nat, int>)
      requires news == [] <==> resets == map[]
      modifies this
      ensures resumeAt == old(resumeAt) + resets && ready == (old(ready) || resets != map[])
    {
      if |news| > 0 {
        resumeAt := resumeAt + resets;
        ready := true;
      }
    }

    /** Adds the partitions that are new in the assignment and drops those that are gone from it. */
    method Reconcile(mine: seq<nat>, bucket: Bucket) returns (fatal: bool, ghost added: map<nat, Part>)
      requires manager.Valid() && ValidBucket(bucket) && NoDuplicates(mine)
      modifies this, manager
      ensures manager.Valid() && ValidDisks(old(manager.disks))
      ensures fatal ==> SomeFails(Elements(mine) - old(manager.View()).Keys, old(manager.disks), bucket)
      ensures !fatal ==>
                && manager.View() == Restricted(old(manager.View()), Elements(mine)) + added
                && added.Keys == Elements(mine) - old(manager.View()).Keys
                && AllOpen(added, old(manager.disks), bucket)
                && manager.disks == old(manager.disks) - added.Keys
                && resumeAt == old(resumeAt) + Resets(added)
                && ready == (old(ready) || added != map[])
    {
      hide PartitionManager.View, PartitionManager.Valid, ValidBucket, SomeFails, AllOpen, OnDisk, Resets, Restricted,
        Elements, NoDuplicates, ValidDisks;
      var news, gones := Compare(mine);
      ghost var had := manager.View();
      var resets;
      fatal, resets, added := AddAll(news, bucket);
      if fatal {
        return;
      }
      ReconciledView(had, added, Elements(mine), news, gones);
      ResetsOfNews(added, news);
      Resume(news, resets);
      RemoveAll(gones);
    }

    /** One pass over the group's metadata. */
    method TopicInfoLoop(metadata: Metadata, bucket: Bucket) returns (fatal: bool, ghost added: map<nat, Part>)
      requires manager.Valid() && ValidBucket(bucket)
      requires metadata.Assigned? && metadata.topics != [] ==> NoDuplicates(metadata.topics[0])
      modifies this, manager
      ensures manager.Valid() && ValidDisks(old(manager.disks))
      ensures metadata.Unavailable? || metadata.topics == [] ==>
                && !fatal && manager.View() == old(manager.View()) && manager.disks == old(manager.disks)
                && resumeAt == old(resumeAt)
                && ready == (metadata.Unavailable? && old(ready))
      ensures metadata.Assigned? && metadata.topics != [] && fatal ==>
                SomeFails(Elements(metadata.topics[0]) - old(manager.View()).Keys, old(manager.disks), bucket)
      ensures metadata.Assigned? && metadata.topics != [] && !fatal ==>
                && manager.View() == Restricted(old(manager.View()), Elements(metadata.topics[0])) + added
                && added.Keys == Elements(metadata.topics[0]) - old(manager.View()).Keys
                && AllOpen(added, old(manager.disks), bucket)
                && manager.disks == old(manager.disks) - added.Keys
                && resumeAt == old(resumeAt) + Resets(added)
                && ready == (old(ready) || added != map[])
    {
      hide PartitionManager.View, ValidBucket, SomeFails, AllOpen, OnDisk, Resets, Restricted, Elements;
      fatal, added := false, map[];
      if metadata.Assigned? {
        if |metadata.topics| == 0 {
          ready := false;
        } else {
          fatal, added := Reconcile(metadata.topics[0], bucket);
        }
      }
    }
  }

  lemma ReconciledView(had: map<nat, Part>, added: map<nat, Part>, mine: set<nat>, news: seq<nat>, gones: seq<nat>)
    requires Elements(news) == mine - had.Keys && Elements(gones) == had.Keys - mine && added.Keys == Elements(news)
    ensures had + added - Elements(gones) == Restricted(had, mine) + added
    ensures Elements(gones) <= (had + added).Keys
  {
  }

  lemma ResetsOfNews(added: map<nat, Part>, news: seq<nat>)
    requires added.Keys == Elements(news)
    ensures news == [] <==> added == map[]
    ensures Resets(added) == map[] <==> added == map[]
  {
    assert news != [] ==> news[0] in Elements(news);
    assert added == map[] <==> added.Keys == {};
    assert Resets(added).Keys == added.Keys;
  }

  /** The partitions in `done` have gone through their batches. */
  function Polled(view: map<nat, Part>, fetches: map<nat, seq<Fetched>>, done: set<nat>): map<nat, Part>
    requires done <= fetches.Keys
  {
    map p | p in view :: if p in done then Batch(view[p], fetches[p]) else view[p]
  }
}
