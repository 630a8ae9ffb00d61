/** The partitions that a node holds: opening, dropping, and dispatch. */
module Managers {
  import opened Backups
  import opened StorageKeys
  import opened Records
  import opened PartitionState
  import opened Listing
  import opened Partitions
  import opened Sequences

  datatype AddResult = Added(offset: Option<int64>) | AlreadyExists | OpenFailed

  function Elements(a: seq<nat>): set<nat> {
    set p | p in a
  }

  /** The partitions of an order that are open, each with its requested keys. */
  function Gather(view: map<nat, Part>, keys: map<nat, seq<RecordKey>>, order: seq<nat>): seq<Record>
    requires forall p :: p in order ==> p in keys
  {
    if order == [] then []
    else
      assert order[0] in order;
      (if order[0] in view then Lookups(view[order[0]].disk.store, keys[order[0]]) else [])
        + Gather(view, keys, order[1..])
  }

  lemma {:induction false} GatherConcat(view: map<nat, Part>, keys: map<nat, seq<RecordKey>>, a: seq<nat>, b: seq<nat>)
    requires forall p :: p in a + b ==> p in keys
    ensures (forall p :: p in a ==> p in keys) && (forall p :: p in b ==> p in keys)
    ensures Gather(view, keys, a + b) == Gather(view, keys, a) + Gather(view, keys, b)
    decreases a
  {
    assert (forall p :: p in a ==> p in a + b) && (forall p :: p in b ==> p in a + b);
    if a == [] {
      assert a + b == b;
    } else {
      assert (a + b)[1..] == a[1..] + b;
      GatherConcat(view, keys, a[1..], b);
    }
  }

  lemma {:induction false} GatherMembers(view: map<nat, Part>, keys: map<nat, seq<RecordKey>>, order: seq<nat>)
    requires forall p :: p in order ==> p in keys
    ensures forall r :: r in Gather(view, keys, order) <==>
              exists p :: p in order && p in view && IsAsked(view[p].disk.store, keys[p], r)
    decreases order
  {
    hide Lookups, IsAsked;
    if order != [] {
      forall p, r | p in view && p in keys
        ensures r in Lookups(view[p].disk.store, keys[p]) <==> IsAsked(view[p].disk.store, keys[p], r)
      {
        ReadIfAsked(view[p].disk.store, keys[p], r);
      }
      assert order[0] in order && order == [order[0]] + order[1..];
      GatherMembers(view, keys, order[1..]);
    }
  }

  lemma EmptyIsValid()
    ensures ValidDb(map[])
  {
  }

  ghost predicate ValidDisks(disks: map<nat, Db>) {
    forall p :: p in disks ==> ValidDb(disks[p])
  }

  /** What opening a partition finds on the local disk. */
  function OnDisk(disks: map<nat, Db>, p: nat): Disk
    requires ValidDisks(disks)
  {
    EmptyIsValid();
    Meaning(if p in disks then disks[p] else map[])
  }

  class PartitionManager {
    const namespace: string
    var partitions: map<nat, Partition>
    /** The databases on the local disk that no open partition uses. */
    var disks: map<nat, Db>

    ghost predicate Valid()
      reads this, partitions.Values
    {
      && (forall p :: p in partitions ==> partitions[p].Valid())
      && (forall p, q :: p in partitions && q in partitions && p != q ==> partitions[p] != partitions[q])
      && ValidDisks(disks)
      && partitions.Keys !! disks.Keys
    }

    /** What each open partition holds and remembers. */
    ghost function View(): (view: map<nat, Part>)
      reads this, partitions.Values
      requires Valid()
      ensures view.Keys == partitions.Keys
    {
      map p | p in partitions :: partitions[p].View()
    }

    constructor (namespace: string, disks: map<nat, Db>)
      requires ValidDisks(disks)
      ensures Valid() && View() == map[] && this.disks == disks && this.namespace == namespace
    {
      this.namespace := namespace;
      partitions := map[];
      this.disks := disks;
    }

    method GetPartitionIDs() returns (ids: seq<nat>)
      ensures NoDuplicates(ids) && forall p :: p in ids <==> p in partitions
    {
      ids := [];
      var rest := partitions.Keys;
      while rest != {}
        invariant rest <= partitions.Keys && NoDuplicates(ids)
        invariant forall p :: p in ids <==> p in partitions && p !in rest
        decreases rest
      {
        var id :| id in rest;
        rest := rest - {id};
        ids := ids + [id];
      }
    }

    method Store(id: nat, part: Partition)
      requires Valid() && id !in partitions && part !in partitions.Values && part.Valid()
      modifies this
      ensures Valid() && View() == old(View())[id := part.View()] && disks == old(disks) - {id}
    {
      hide Meaning, ValidDb;
      partitions := partitions[id := part];
      disks := disks - {id};
    }

    /** Adding a partition opens it from the local disk and the bucket, and touches no other. */
    method AddPartition(id: nat, bucket: Bucket) returns (result: AddResult, ghost latest: Latest)
      requires Valid() && ValidBucket(bucket)
      modifies this
      ensures Valid()
      ensures id in old(partitions) ==> result == AlreadyExists && View() == old(View()) && disks == old(disks)
      ensures id !in old(partitions) ==>
                && Finds(bucket, id, latest)
                && if CannotOpen(OnDisk(old(disks), id), bucket, latest) then
                     result == OpenFailed && View() == old(View()) && disks == old(disks)
                   else
                     && View() == old(View())[id := Recover(OnDisk(old(disks), id), SnapshotOf(bucket, latest))]
                     && result == Added(View()[id].lastOffset)
                     && disks == old(disks) - {id}
    {
      hide ValidBucket, Finds, CannotOpen, SnapshotOf, Recover, Meaning, ValidDb;
      ObjectsAreValid(bucket);
      EmptyIsValid();
      if id in partitions {
        return AlreadyExists, Latest.BackupNotFound;
      }
      var local := if id in disks then disks[id] else map[];
      var part;
      part, latest := NewPartition(namespace, id, local, bucket);
      if part == None {
        return OpenFailed, latest;
      }
      Store(id, part.value);
      result := Added(part.value.lastOffset);
    }

    /** Removing a partition that is open drops it and what it had on disk. */
    method RemovePartition(id: nat)
      requires Valid() && id in partitions
      modifies this
      ensures Valid() && View() == old(View()) - {id} && disks == old(disks)
    {
      partitions := partitions - {id};
    }

    method HandleMutation(id: nat, m: Mutation, offset: int64) returns (ok: bool)
      requires Valid()
      modifies if id in partitions then {partitions[id]} else {}
      ensures Valid()
      ensures ok <==> id in old(View()) && OutcomeOf(old(View())[id].disk.store, m) != Failed
      ensures View() == if id in old(View()) then old(View())[id := Handle(old(View())[id], m, offset)] else old(View())
    {
      hide Handle, OutcomeOf, Meaning, ValidDb;
      if id !in partitions {
        return false;
      }
      ok := partitions[id].HandleMutation(m, offset);
    }

    /** The keys of the partitions that are open are read, partition by partition in the arbitrary order of a map. */
    method ReadRecords(partMap: map<nat, seq<RecordKey>>) returns (records: seq<Record>, ghost order: seq<nat>)
      requires Valid()
      ensures NoDuplicates(order) && forall p :: p in order <==> p in partMap
      ensures records == Gather(View(), partMap, order)
      ensures forall r :: r in records <==>
                exists p :: p in partMap && p in View() && IsAsked(View()[p].disk.store, partMap[p], r)
    {
      hide Lookups, AreRead, IsAsked, Meaning, ValidDb;
      records, order := [], [];
      var rest := partMap.Keys;
      while rest != {}
        invariant rest <= partMap.Keys && NoDuplicates(order)
        invariant forall p :: p in order <==> p in partMap && p !in rest
        invariant records == Gather(View(), partMap, order)
        decreases rest
      {
        var partition :| partition in rest;
        rest := rest - {partition};
        GatherConcat(View(), partMap, order, [partition]);
        order := order + [partition];
        if partition in partitions {
          var res := partitions[partition].ReadRecords(partMap[partition]);
          records := records + res;
        }
      }
      GatherMembers(View(), partMap, order);
    }

    method ListRecords(id: nat, q: Query) returns (found: bool, result: ListResult)
      requires Valid()
      ensures found <==> id in View()
      ensures found ==> result == List(View()[id].disk.store, q)
    {
      if id !in partitions {
        return false, ListError;
      }
      found := true;
      result := partitions[id].ListRecords(q);
    }
  }
}
