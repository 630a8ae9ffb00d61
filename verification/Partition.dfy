/** A partition over its embedded byte-keyed database. */
module Partitions {
  import opened ByteStrings
  import opened StorageKeys
  import opened Records
  import opened PartitionState
  import opened Listing
  import opened Backups
  import opened Sequences

  /** A database value: a serialised record, which is any lossless code of it, or raw bytes. */
  datatype Value = Doc(record: StoredRecord) | Raw(bytes: Bytes)

  type Db = map<Bytes, Value>

  /** One keyspace holds the records and the saved offset. */
  ghost predicate ValidDb(db: Db) {
    forall k :: k in db ==>
      if k == LAST_OFFSET_KEY then db[k].Raw? && |db[k].bytes| == 8 else KEY_PREFIX <= k && db[k].Doc?
  }

  function RecordsIn(db: Db): Store {
    map k | k in db && db[k].Doc? :: db[k].record
  }

  function SavedIn(db: Db): Option<int64>
    requires ValidDb(db)
  {
    if LAST_OFFSET_KEY in db then Some(DecodeOffset(db[LAST_OFFSET_KEY].bytes)) else None
  }

  /** What the keyspace stands for: a map of records and an optional offset. */
  function Meaning(db: Db): Disk
    requires ValidDb(db)
  {
    Disk(RecordsIn(db), SavedIn(db))
  }

  lemma GetRefines(db: Db, pk: Bytes, sk: Bytes)
    requires ValidDb(db)
    ensures var k := FormatRecordKey(pk, sk);
            (k in db <==> k in RecordsIn(db)) && (k in db ==> db[k] == Doc(RecordsIn(db)[k]))
  {
    RecordKeyIsNotInternal(pk, sk);
  }

  /** Writing or removing a record changes the meaning at that record only. */
  lemma PutRefines(db: Db, pk: Bytes, sk: Bytes, r: StoredRecord)
    requires ValidDb(db)
    ensures var k := FormatRecordKey(pk, sk);
            ValidDb(db[k := Doc(r)]) && Meaning(db[k := Doc(r)]) == Disk(RecordsIn(db)[k := r], SavedIn(db))
  {
    var k := FormatRecordKey(pk, sk);
    RecordKeyIsNotInternal(pk, sk);
    assert RecordsIn(db[k := Doc(r)]) == RecordsIn(db)[k := r];
  }

  lemma DeleteRefines(db: Db, pk: Bytes, sk: Bytes)
    requires ValidDb(db)
    ensures var k := FormatRecordKey(pk, sk);
            ValidDb(db - {k}) && Meaning(db - {k}) == Disk(RecordsIn(db) - {k}, SavedIn(db))
  {
    var k := FormatRecordKey(pk, sk);
    RecordKeyIsNotInternal(pk, sk);
    assert RecordsIn(db - {k}) == RecordsIn(db) - {k};
  }

  /** Saving an offset changes the offset only, and it is read back as it was written. */
  lemma SaveRefines(db: Db, offset: int64)
    requires ValidDb(db)
    ensures var db' := db[LAST_OFFSET_KEY := Raw(EncodeOffset(offset))];
            ValidDb(db') && Meaning(db') == Disk(RecordsIn(db), Some(offset))
  {
    OffsetRoundTrip(offset);
    if LAST_OFFSET_KEY in db {
      assert db[LAST_OFFSET_KEY].Raw?;
    }
    assert RecordsIn(db[LAST_OFFSET_KEY := Raw(EncodeOffset(offset))]) == RecordsIn(db);
  }

  /** The requested records that exist, in the order of the request and with its repetitions. */
  function Lookups(st: Store, keys: seq<RecordKey>): seq<Record> {
    if keys == [] then []
    else
      (if keys[0].Storage() in st then [st[keys[0].Storage()].ToRecord(keys[0].pk, keys[0].sk)] else [])
      + Lookups(st, keys[1..])
  }

  lemma {:induction false} LookupsConcat(st: Store, a: seq<RecordKey>, b: seq<RecordKey>)
    ensures Lookups(st, a + b) == Lookups(st, a) + Lookups(st, b)
    decreases a
  {
    hide FormatRecordKey;
    if a == [] {
      assert a + b == b;
    } else {
      var key, rest := a[0], a[1..];
      var head := if key.Storage() in st then [st[key.Storage()].ToRecord(key.pk, key.sk)] else [];
      assert (a + b)[0] == key && (a + b)[1..] == rest + b;
      LookupsConcat(st, rest, b);
      assert Lookups(st, a + b) == head + Lookups(st, rest + b);
      assert Lookups(st, a) == head + Lookups(st, rest);
    }
  }

  // What a read returns, record by record.

  /** The store holds this record under this key. */
  ghost predicate Has(st: Store, key: RecordKey, r: Record) {
    var k := FormatRecordKey(key.pk, key.sk);
    k in st && r == Record(key.pk, key.sk, st[k].data, st[k].createdAt, st[k].updatedAt)
  }

  /** The records are those of the requested positions whose key is in the store, in order. */
  ghost predicate AreReadAt(st: Store, keys: seq<RecordKey>, records: seq<Record>, at: seq<nat>) {
    && |at| == |records| && Increasing(at)
    && (forall p: nat :: p in at <==> p < |keys| && FormatRecordKey(keys[p].pk, keys[p].sk) in st)
    && (forall i :: 0 <= i < |at| ==> at[i] < |keys| && Has(st, keys[at[i]], records[i]))
  }

  ghost predicate AreRead(st: Store, keys: seq<RecordKey>, records: seq<Record>) {
    exists at: seq<nat> :: AreReadAt(st, keys, records, at)
  }

  lemma LastLookup(st: Store, keys: seq<RecordKey>, key: RecordKey)
    ensures Lookups(st, keys + [key]) ==
            Lookups(st, keys) +
              if key.Storage() in st then [st[key.Storage()].ToRecord(key.pk, key.sk)] else []
  {
    LookupsConcat(st, keys, [key]);
  }

  lemma AbsentIsPassedOver(st: Store, keys: seq<RecordKey>, records: seq<Record>, key: RecordKey)
    requires AreRead(st, keys, records) && key.Storage() !in st
    ensures AreRead(st, keys + [key], records)
  {
    hide FormatRecordKey, Increasing, Has;
    var at: seq<nat> :| AreReadAt(st, keys, records, at);
    assert AreReadAt(st, keys + [key], records, at);
  }

  lemma PresentIsRead(st: Store, keys: seq<RecordKey>, records: seq<Record>, key: RecordKey, r: Record)
    requires AreRead(st, keys, records) && Has(st, key, r)
    ensures AreRead(st, keys + [key], records + [r])
  {
    hide FormatRecordKey;
    var at: seq<nat> :| AreReadAt(st, keys, records, at);
    assert forall i :: 0 <= i < |at| ==> at[i] in at;
    assert AreReadAt(st, keys + [key], records + [r], at + [|keys|]);
  }

  lemma ReadOnce(st: Store, keys: seq<RecordKey>, rs: seq<Record>, os: seq<Record>)
    requires AreRead(st, keys, rs) && AreRead(st, keys, os)
    ensures rs == os
  {
    hide FormatRecordKey;
    var a: seq<nat> :| AreReadAt(st, keys, rs, a);
    var b: seq<nat> :| AreReadAt(st, keys, os, b);
    IncreasingUnique(a, b);
    forall i | 0 <= i < |rs|
      ensures rs[i] == os[i]
    {
      assert Has(st, keys[a[i]], rs[i]) && Has(st, keys[b[i]], os[i]);
    }
  }

  lemma {:induction false} LookupsAreRead(st: Store, keys: seq<RecordKey>)
    ensures AreRead(st, keys, Lookups(st, keys))
    decreases |keys|
  {
    hide FormatRecordKey, AreRead, Lookups;
    if keys == [] {
      NothingIsRead(st);
    } else {
      var n := |keys| - 1;
      var key := keys[n];
      assert keys == keys[..n] + [key];
      LookupsAreRead(st, keys[..n]);
      LastLookup(st, keys[..n], key);
      if key.Storage() in st {
        var r := st[key.Storage()].ToRecord(key.pk, key.sk);
        PresentIsRead(st, keys[..n], Lookups(st, keys[..n]), key, r);
      } else {
        AbsentIsPassedOver(st, keys[..n], Lookups(st, keys[..n]), key);
        assert Lookups(st, keys) == Lookups(st, keys[..n]);
      }
    }
  }

  lemma NothingIsRead(st: Store)
    ensures AreRead(st, [], Lookups(st, []))
  {
    assert AreReadAt(st, [], [], []);
  }

  /** Looking the keys up gives, and nothing else gives, one record for each requested position whose key is in the
      store, in the order of the request. */
  lemma LookupsIff(st: Store, keys: seq<RecordKey>, records: seq<Record>)
    ensures records == Lookups(st, keys) <==> AreRead(st, keys, records)
  {
    hide AreRead, Lookups;
    LookupsAreRead(st, keys);
    if AreRead(st, keys, records) {
      ReadOnce(st, keys, records, Lookups(st, keys));
    }
  }

  /** The requested positions at which the store has this record. */
  ghost function Asking(st: Store, keys: seq<RecordKey>, r: Record): set<nat> {
    set i: nat | i < |keys| && Has(st, keys[i], r)
  }

  /** Every record is read as often as it is asked for. */
  lemma {:induction false} ReadAsOftenAsAsked(st: Store, keys: seq<RecordKey>, r: Record)
    ensures multiset(Lookups(st, keys))[r] == |Asking(st, keys, r)|
    decreases |keys|
  {
    hide FormatRecordKey, Lookups, Has;
    if keys == [] {
      NothingIsRead(st);
      assert Asking(st, keys, r) == {};
    } else {
      var n := |keys| - 1;
      var key := keys[n];
      assert keys == keys[..n] + [key];
      ReadAsOftenAsAsked(st, keys[..n], r);
      LastLookup(st, keys[..n], key);
      HasIsLookup(st, key, r);
      AskingNext(st, keys[..n], key, r);
    }
  }

  /** Some requested key is stored as this record. */
  ghost predicate IsAsked(st: Store, keys: seq<RecordKey>, r: Record) {
    exists i: nat :: i < |keys| && Has(st, keys[i], r)
  }

  lemma ReadIfAsked(st: Store, keys: seq<RecordKey>, r: Record)
    ensures r in Lookups(st, keys) <==> IsAsked(st, keys, r)
  {
    hide Has, Lookups;
    ReadAsOftenAsAsked(st, keys, r);
    assert r in Lookups(st, keys) <==> multiset(Lookups(st, keys))[r] > 0;
    if IsAsked(st, keys, r) {
      var i: nat :| i < |keys| && Has(st, keys[i], r);
      assert i in Asking(st, keys, r);
    }
    if Asking(st, keys, r) != {} {
      var i :| i in Asking(st, keys, r);
    }
  }

  lemma HasIsLookup(st: Store, key: RecordKey, r: Record)
    ensures Has(st, key, r) <==> key.Storage() in st && r == st[key.Storage()].ToRecord(key.pk, key.sk)
  {
  }

  lemma AskingNext(st: Store, keys: seq<RecordKey>, key: RecordKey, r: Record)
    ensures |Asking(st, keys + [key], r)| == |Asking(st, keys, r)| + if Has(st, key, r) then 1 else 0
  {
    hide Has;
    var n := |keys|;
    assert Asking(st, keys + [key], r) == Asking(st, keys, r) + if Has(st, key, r) then {n} else {};
  }

  lemma UnderIsDetermined(keys: seq<Bytes>, prefix: Bytes, some: seq<Bytes>)
    requires Ascending(keys) && Ascending(some)
    requires forall k :: prefix <= k ==> (k in keys <==> k in some)
    ensures Under(keys, prefix) == Under(some, prefix)
  {
    RangeIsRun(keys, prefix);
    RangeIsRun(some, prefix);
    UnderMember(keys, prefix);
    UnderMember(some, prefix);
    AscendingRun(keys, Seek(keys, prefix), Under(keys, prefix), prefix);
    AscendingRun(some, Seek(some, prefix), Under(some, prefix), prefix);
    AscendingUnique(Under(keys, prefix), Under(some, prefix));
  }

  /** The internal key is never in the range of a listing. */
  lemma RangeInDb(db: Db, q: Query)
    requires ValidDb(db)
    ensures var keys := Sorted(db.Keys);
            IsRun(keys, Seek(keys, q.Prefix()), Range(RecordsIn(db), q), q.Prefix())
    ensures forall k :: k in Range(RecordsIn(db), q) ==> k in db && db[k].Doc?
  {
    var prefix := q.Prefix();
    RecordKeyIsNotInternal(q.pk, q.skPrefix);
    forall k | prefix <= k
      ensures k in Sorted(db.Keys) <==> k in Sorted(RecordsIn(db).Keys)
    {
      assert KEY_PREFIX[0] == prefix[0] == k[0] && LAST_OFFSET_KEY[0] == 0x6c;
    }
    UnderIsDetermined(Sorted(db.Keys), prefix, Sorted(RecordsIn(db).Keys));
    RangeIsRun(Sorted(db.Keys), prefix);
  }

  /** A listing has visited the keys before i and has these records so far. */
  ghost predicate ListingAt(db: Db, q: Query, keys: seq<Bytes>, i: nat, records: seq<Record>) {
    var run := Range(RecordsIn(db), q);
    var v, s := Visits(RecordsIn(db), q, run), Seek(keys, q.Prefix());
    && keys == Sorted(db.Keys)
    && s <= i <= s + |run| && IsRun(keys, s, run, q.Prefix())
    && Passed(v, i - s, q.limit, q.ifStop) && records == Kept(v[..i - s])
  }

  lemma ListingStarts(db: Db, q: Query)
    requires ValidDb(db)
    ensures var keys := Sorted(db.Keys); ListingAt(db, q, keys, Seek(keys, q.Prefix()), [])
  {
    hide Range, Visits, Sorted, Seek, IsRun, RecordsIn, ValidDb;
    RangeInDb(db, q);
  }

  lemma KeyIsRecord(db: Db, q: Query, keys: seq<Bytes>, i: nat)
    requires ValidDb(db) && keys == Sorted(db.Keys) && i < |keys| && q.Prefix() <= keys[i]
    ensures keys[i] in db && db[keys[i]].Doc?
  {
    RecordKeyIsNotInternal(q.pk, q.skPrefix);
    assert keys[i] in keys;
    assert KEY_PREFIX[0] == q.Prefix()[0] == keys[i][0] && LAST_OFFSET_KEY[0] == 0x6c;
  }

  lemma ListingContinues(db: Db, q: Query, keys: seq<Bytes>, i: nat, records: seq<Record>, visit: Visit)
    requires ListingAt(db, q, keys, i, records) && i < |keys| && q.Prefix() <= keys[i] &&
             !LimitReached(|records|, q.limit)
    requires keys[i] in RecordsIn(db) && visit == VisitKey(RecordsIn(db), q, keys[i])
    ensures visit == Broken ==> List(RecordsIn(db), q) == ListError
    ensures visit == Drop && q.ifStop ==> List(RecordsIn(db), q) == Listed(records)
    ensures visit != Broken && !(visit == Drop && q.ifStop) ==>
              ListingAt(db, q, keys, i + 1, records + if visit.Keep? then [visit.record] else [])
  {
    hide Range, Sorted, Seek, VisitKey, First, Outcomes, Kept, RecordsIn, FormatRecordKey;
    var run := Range(RecordsIn(db), q);
    var v, j := Visits(RecordsIn(db), q, run), i - Seek(keys, q.Prefix());
    assert j < |run| && run[j] == keys[i];
    OutcomeHere(v, j, q.limit, q.ifStop);
    KeptNext(v, j);
  }

  lemma ListingEnds(db: Db, q: Query, keys: seq<Bytes>, i: nat, records: seq<Record>)
    requires ListingAt(db, q, keys, i, records)
    requires LimitReached(|records|, q.limit) || i >= |keys| || !(q.Prefix() <= keys[i])
    ensures List(RecordsIn(db), q) == Listed(records)
  {
    hide Range, Sorted, Seek, VisitKey, First, Outcomes, Kept;
    var run := Range(RecordsIn(db), q);
    var v, j := Visits(RecordsIn(db), q, run), i - Seek(keys, q.Prefix());
    assert j < |run| ==> run[j] == keys[i] && run[j] in run;
    OutcomeHere(v, j, q.limit, q.ifStop);
  }

  datatype RestoreStatus = Restored | NotFound | RemoteLower | DownloadFailed | RestorePanicked

  class Partition {
    const id: nat
    const namespace: string
    var db: Db
    var lastOffset: Option<int64>

    ghost predicate Valid()
      reads this
    {
      ValidDb(db)
    }

    function View(): Part
      reads this
      requires Valid()
    {
      Part(Meaning(db), lastOffset)
    }

    /** Opening from the local disk, empty when there was none. */
    constructor (namespace: string, id: nat, local: Db)
      requires ValidDb(local)
      ensures Valid() && this.namespace == namespace && this.id == id
      ensures View() == Recover(Meaning(local), None)
    {
      this.namespace, this.id := namespace, id;
      db := local;
      lastOffset := if LAST_OFFSET_KEY in local then Some(DecodeOffset(local[LAST_OFFSET_KEY].bytes)) else None;
    }

    /** The offset goes into the same transaction as the records. */
    method UpdateOffsetInTx(txn: Db, offset: int64) returns (written: Db)
      requires ValidDb(txn)
      modifies this`lastOffset
      ensures ValidDb(written) && Meaning(written) == Disk(RecordsIn(txn), Some(offset))
      ensures lastOffset == Some(offset)
    {
      SaveRefines(txn, offset);
      written := txn[LAST_OFFSET_KEY := Raw(EncodeOffset(offset))];
      lastOffset := Some(offset);
    }

    method HandleMutation(m: Mutation, offset: int64) returns (ok: bool)
      requires Valid()
      modifies this
      ensures Valid() && MutationDone(old(View()), m, offset, ok, View())
      ensures View() == Handle(old(View()), m, offset) && (ok <==> OutcomeOf(old(View()).disk.store, m) != Failed)
      ensures DeletesAbsent(old(View()).disk.store, m) || !ok ==> View() == old(View())
      ensures DeletesAbsent(old(View()).disk.store, m) ==> ok
      ensures ok && !DeletesAbsent(old(View()).disk.store, m) ==>
                lastOffset == Some(offset) && View().disk.saved == Some(offset)
    {
      match m.op {
      case Put => ok := HandlePut(m, offset);
      case Delete => ok := HandleDelete(m, offset);
      case Unknown => ok := false;
      }
      HandleInFull(old(View()), m, offset, ok, View());
    }

    method HandlePut(m: Mutation, offset: int64) returns (ok: bool)
      requires Valid() && m.op == Put
      modifies this
      ensures Valid() && PutDone(old(View()), m, offset, ok, View())
    {
      var key := FormatRecordKey(m.pk, m.sk);
      GetRefines(db, m.pk, m.sk);
      var stored: StoredRecord;
      if key in db {
        stored := db[key].record.(updatedAt := m.tsMs);
      } else {
        stored := StoredRecord(Null, m.tsMs, m.tsMs);
      }
      var shouldUpdate := Compare(m.cond, stored.ToCompareRecord(m.pk, m.sk));
      if shouldUpdate == Error {
        return false;
      }
      var txn := db;
      if shouldUpdate == Holds {
        stored := stored.(data := m.data);
        PutRefines(txn, m.pk, m.sk, stored);
        txn := txn[key := Doc(stored)];
      }
      txn := UpdateOffsetInTx(txn, offset);
      db := txn;
      ok := true;
    }

    method HandleDelete(m: Mutation, offset: int64) returns (ok: bool)
      requires Valid() && m.op == Delete
      modifies this
      ensures Valid() && DeleteDone(old(View()), m, offset, ok, View())
    {
      var key := FormatRecordKey(m.pk, m.sk);
      GetRefines(db, m.pk, m.sk);
      var shouldDelete := Holds;
      if m.cond.Some? {
        if key !in db {
          return true;
        }
        shouldDelete := Compare(m.cond, db[key].record.ToCompareRecord(m.pk, m.sk));
        if shouldDelete == Error {
          return false;
        }
      }
      var txn := db;
      if shouldDelete == Holds {
        DeleteRefines(txn, m.pk, m.sk);
        txn := txn - {key};
      }
      txn := UpdateOffsetInTx(txn, offset);
      db := txn;
      ok := true;
    }

    method ReadRecords(keys: seq<RecordKey>) returns (records: seq<Record>)
      requires Valid()
      ensures AreRead(View().disk.store, keys, records)
      ensures records == Lookups(View().disk.store, keys)
    {
      records := [];
      for i := 0 to |keys|
        invariant records == Lookups(RecordsIn(db), keys[..i])
      {
        var key := keys[i];
        assert keys[..i + 1] == keys[..i] + [key];
        LookupsConcat(RecordsIn(db), keys[..i], [key]);
        GetRefines(db, key.pk, key.sk);
        if key.Storage() in db {
          records := records + [db[key.Storage()].record.ToRecord(key.pk, key.sk)];
        }
      }
      assert keys[..|keys|] == keys;
      LookupsAreRead(RecordsIn(db), keys);
    }

    /** One item of a listing. */
    method VisitItem(q: Query, k: Bytes) returns (visit: Visit)
      requires Valid() && q.Prefix() <= k && k in db && db[k].Doc?
      ensures visit == VisitKey(RecordsIn(db), q, k)
    {
      var parts := SplitRecordKey(k);
      if parts == InvalidKey {
        return Broken;
      }
      var Parts(pk, sk) := parts;
      if q.skPrefix == sk {
        return Skip;
      }
      var should := Compare(q.cond, db[k].record.ToCompareRecord(pk, sk));
      visit :=
        if should == Error then Broken
        else if should == Holds then Keep(db[k].record.ToRecord(pk, sk))
        else Drop;
    }

    /** The keys are visited in order, from the first that is not below the prefix until one lacks it. */
    method ListRecords(q: Query) returns (result: ListResult)
      requires Valid()
      ensures IsListing(View().disk.store, q, result)
      ensures result == List(View().disk.store, q)
    {
      hide ListingAt, IsListing, List, Sorted, Seek, VisitKey;
      ListIsListing(RecordsIn(db), q);
      var prefix := q.Prefix();
      var keys := Sorted(db.Keys);
      var i := Seek(keys, prefix);
      ListingStarts(db, q);
      var records: seq<Record> := [];
      var read := 0;
      while i < |keys| && prefix <= keys[i] && (q.limit == 0 || read < q.limit)
        invariant i <= |keys| && read == |records| && ListingAt(db, q, keys, i, records)
      {
        KeyIsRecord(db, q, keys, i);
        var visit := VisitItem(q, keys[i]);
        ListingContinues(db, q, keys, i, records, visit);
        assert records + [] == records;
        if visit == Broken {
          return ListError;
        }
        if visit == Drop && q.ifStop {
          return Listed(records);
        }
        if visit.Keep? {
          records, read := records + [visit.record], read + 1;
        }
        i := i + 1;
      }
      ListingEnds(db, q, keys, i, records);
      result := Listed(records);
    }

    /** Nothing is uploaded before the first offset; otherwise the upload is found by this partition's listing, parses
        to the offset, and is worth what the partition holds. */
    method RunBackup() returns (upload: Option<(string, Db)>)
      requires Valid() && (lastOffset.Some? ==> lastOffset.value >= 0)
      ensures upload == None <==> View().lastOffset == None
      ensures upload.Some? ==>
                var (name, content) := upload.value;
                && KeyPrefix(namespace, id) <= name
                && ParseName(name) == Number(View().lastOffset.value)
                && ValidDb(content) && Meaning(content) == View().disk
    {
      if lastOffset.Some? {
        ParseUndoesPrint(namespace, id, lastOffset.value);
        PrefixIff(namespace, id, namespace, id, lastOffset.value);
      }
      upload := if lastOffset.None? then None else Some((BackupName(namespace, id, lastOffset.value), db));
    }

    /** The ghost result is what the listing's pages show to be the latest backup. */
    method CheckAndRestoreFromS3(pages: seq<seq<string>>, objects: map<string, Db>)
      returns (status: RestoreStatus, ghost latest: Latest)
      requires Valid()
      requires forall name :: name in objects ==> ValidDb(objects[name])
      modifies this
      ensures Valid() && IsLatest(pages, latest)
      ensures status ==
              if latest == Panicked then RestorePanicked
              else if latest == Latest.BackupNotFound then NotFound
              else if old(lastOffset).Some? && latest.offset <= old(lastOffset).value then RemoteLower
              else if latest.name !in objects then DownloadFailed
              else Restored
      ensures View() ==
              if status == Restored then Part(Meaning(objects[latest.name]), Some(latest.offset)) else old(View())
    {
      var backup := GetLatestBackupOffset(pages);
      latest := backup;
      if backup == Panicked {
        return RestorePanicked, backup;
      }
      if backup == Latest.BackupNotFound {
        return NotFound, backup;
      }
      var Found(offset, newestBackup) := backup;
      if lastOffset.Some? && offset <= lastOffset.value {
        return RemoteLower, backup;
      }
      if newestBackup !in objects {
        return DownloadFailed, backup;
      }
      ReadableFits(pages);
      NewestIsThere(ReadableAll(pages), offset, newestBackup);
      db := objects[newestBackup];
      lastOffset := Some(offset);
      status := Restored;
    }
  }

  /** Remote storage as a node finds it: whether to restore from it, what a listing of each partition's backups
      returns, and the objects. */
  datatype Bucket = Bucket(restore: bool, pages: nat -> seq<seq<string>>, objects: map<string, Db>)

  ghost predicate ValidBucket(bucket: Bucket) {
    forall name :: name in bucket.objects ==> ValidDb(bucket.objects[name])
  }

  /** What a download brings; it brings nothing when the object is gone since the listing. */
  function Download(objects: map<string, Db>, name: string): Disk
    requires forall name :: name in objects ==> ValidDb(objects[name])
  {
    if name in objects then Meaning(objects[name]) else EMPTY_DISK
  }

  /** The backup that opening the partition finds in the bucket, if it looks. */
  ghost predicate Finds(bucket: Bucket, id: nat, latest: Latest)
    requires ValidBucket(bucket)
  {
    if bucket.restore then IsLatest(bucket.pages(id), latest) else latest == Latest.BackupNotFound
  }

  lemma ObjectsAreValid(bucket: Bucket)
    requires ValidBucket(bucket)
    ensures forall name :: name in bucket.objects ==> ValidDb(bucket.objects[name])
  {
  }

  function SnapshotOf(bucket: Bucket, latest: Latest): Option<Snapshot>
    requires forall name :: name in bucket.objects ==> ValidDb(bucket.objects[name])
  {
    match latest
    case Found(offset, name) => Some(Snapshot(offset, Download(bucket.objects, name)))
    case _ => None
  }

  /** The search panics, or the snapshot that opening would restore cannot be downloaded. */
  predicate CannotOpen(local: Disk, bucket: Bucket, latest: Latest)
    requires forall name :: name in bucket.objects ==> ValidDb(bucket.objects[name])
  {
    latest == Panicked || (UsesRemote(local, SnapshotOf(bucket, latest)) && latest.name !in bucket.objects)
  }

  /** The backups that the bucket holds for one partition, by offset. */
  ghost function Snapshots(objects: map<string, Db>, namespace: string, id: nat, offsets: set<nat>): map<int, Disk>
    requires forall name :: name in objects ==> ValidDb(objects[name])
  {
    map o: int | o in offsets :: Download(objects, BackupName(namespace, id, o))
  }

  /** When the listing shows the partition's own backups, and no other names, the newest of them is found. */
  lemma OwnBackupIsFound(bucket: Bucket, namespace: string, id: nat, offsets: set<nat>, latest: Latest)
    requires ValidBucket(bucket) && bucket.restore && Finds(bucket, id, latest)
    requires Lists(bucket.pages(id), namespace, id, offsets)
    ensures latest != Panicked
    ensures IsNewest(Snapshots(bucket.objects, namespace, id, offsets), SnapshotOf(bucket, latest))
  {
    hide Newest, ReadableAll, BackupName;
    match latest
    case Found(offset, name) => NewestIsLargest(bucket.pages(id), namespace, id, offsets, offset, name);
    case _ => NewestIsLargest(bucket.pages(id), namespace, id, offsets, 0, "");
  }

  /** Partition 1 of namespace "a", new on a node and shown a backup of namespace "a/1-x", opens with its records. */
  lemma ForeignBackupIsRestored(bucket: Bucket, latest: Latest)
    requires ValidBucket(bucket) && bucket.restore && Finds(bucket, 1, latest)
    requires bucket.pages(1) == [[BackupName("a/1-x", 5, 7)]]
    ensures KeyPrefix("a", 1) <= BackupName("a/1-x", 5, 7)
    ensures Recover(EMPTY_DISK, SnapshotOf(bucket, latest)) ==
            Part(Download(bucket.objects, BackupName("a/1-x", 5, 7)), Some(7))
  {
    hide Newest, ReadableAll, BackupName, KeyPrefix;
    ForeignBackupIsListed();
    var name := BackupName("a/1-x", 5, 7);
    var pages := [[name]];
    var offsets: set<nat> := {7};
    assert name in pages[0];
    assert IsBackupOf(name, "a/1-x", 5, offsets);
    assert Lists(pages, "a/1-x", 5, offsets);
    match latest
    case Found(offset, found) => NewestIsLargest(pages, "a/1-x", 5, offsets, offset, found);
    case _ => NewestIsLargest(pages, "a/1-x", 5, offsets, 0, "");
  }

  lemma FindsOne(bucket: Bucket, id: nat, l: Latest, m: Latest)
    requires ValidBucket(bucket) && Finds(bucket, id, l) && Finds(bucket, id, m)
    ensures l == m
  {
    hide ReadableAll, Newest;
    var entries := ReadableAll(bucket.pages(id));
    if bucket.restore && l != Panicked && m != Panicked {
      NewestIsUnique(entries, if l.Found? then l.offset else 0, if l.Found? then l.name else "",
                     if m.Found? then m.offset else 0, if m.Found? then m.name else "");
    }
  }

  /** Opening is recovery from the local disk and the latest backup; it fails when the search for that panics, or when
      it has to be restored and cannot be downloaded. */
  method NewPartition(namespace: string, id: nat, local: Db, bucket: Bucket)
    returns (part: Option<Partition>, ghost latest: Latest)
    requires ValidDb(local) && ValidBucket(bucket)
    ensures Finds(bucket, id, latest)
    ensures part == None <==> CannotOpen(Meaning(local), bucket, latest)
    ensures part.Some? ==>
              && fresh(part.value) && part.value.Valid()
              && part.value.View() == Recover(Meaning(local), SnapshotOf(bucket, latest))
  {
    hide IsLatest, ReadableAll;
    var candidate := new Partition(namespace, id, local);
    latest := Latest.BackupNotFound;
    if bucket.restore {
      var status;
      status, latest := candidate.CheckAndRestoreFromS3(bucket.pages(id), bucket.objects);
      if status == DownloadFailed || status == RestorePanicked {
        return None, latest;
      }
    }
    part := Some(candidate);
  }
}
