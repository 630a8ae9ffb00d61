/** Partitioned logs and stores against one unsharded map. */
module Sharding {
  import opened ByteStrings
  import opened StorageKeys
  import opened Records
  import opened Partitioner
  import opened Routing

  /** A number of partitions: any that a signed 32-bit partition id allows. */
  type Count = n: nat | 0 < n <= TWO_31 witness 1

  /** The partition whose log a key's mutations go to. */
  function LogOf(pk: Bytes, count: Count): nat {
    LogRoute(Hash(pk), count)
  }

  lemma LogOfInRange(pk: Bytes, count: Count)
    ensures LogOf(pk, count) < count
  {
  }

  /** The partition whose store a key is read from. */
  function StoreOf(pk: Bytes, count: Count): nat {
    GetPartitionInRange(pk, count);
    GetPartition(pk, count)
  }

  /** The mutations that belong to one partition's log, in order. */
  function Routed(ms: seq<Mutation>, p: nat, count: Count): seq<Mutation> {
    if ms == [] then []
    else (if LogOf(ms[0].pk, count) == p then [ms[0]] else []) + Routed(ms[1..], p, count)
  }

  lemma {:induction false} RoutedConcat(a: seq<Mutation>, b: seq<Mutation>, p: nat, count: Count)
    ensures Routed(a + b, p, count) == Routed(a, p, count) + Routed(b, p, count)
  {
    hide LogOf;
    if a == [] {
      assert a + b == b;
    } else {
      assert (a + b)[1..] == a[1..] + b;
      RoutedConcat(a[1..], b, p, count);
      var head := if LogOf(a[0].pk, count) == p then [a[0]] else [];
      assert Routed(a + b, p, count) == head + Routed(a[1..] + b, p, count);
    }
  }

  ghost predicate Over(ms: seq<Mutation>, pks: set<Bytes>) {
    forall i :: 0 <= i < |ms| ==> ms[i].pk in pks
  }

  /** Whichever way partition logs are merged into one sequence, each partition's store agrees with the one map
      that the whole sequence gives, on every record of the keys routed to it. */
  ghost predicate Shards(pks: set<Bytes>, count: Count) {
    forall ms, pk, sk :: Over(ms, pks) && pk in pks ==> AgreesAt(ms, LogOf(pk, count), count, FormatRecordKey(pk, sk))
  }

  ghost predicate AgreesAt(ms: seq<Mutation>, p: nat, count: Count, k: Bytes) {
    CellAt(Fold(map[], Routed(ms, p, count)), k) == CellAt(Fold(map[], ms), k)
  }

  /** A key that begins another, up to a NUL, is in the same partition. */
  ghost predicate Separate(pks: set<Bytes>, count: Count) {
    forall p, q :: p in pks && q in pks && p + [NUL] <= q ==> LogOf(p, count) == LogOf(q, count)
  }

  lemma NothingExtends(p: Bytes, q: Bytes)
    ensures NulFree(q) ==> !(p + [NUL] <= q)
  {
    if p + [NUL] <= q {
      assert q[|p|] == (p + [NUL])[|p|];
    }
  }

  lemma NulFreeIsSeparate(pks: set<Bytes>, count: Count)
    requires NulFreeSet(pks)
    ensures Separate(pks, count)
  {
    forall p, q | p in pks && q in pks
      ensures !(p + [NUL] <= q)
    {
      NothingExtends(p, q);
    }
  }

  /** Every mutation of storage key k is in partition p. */
  ghost predicate OnlyIn(ms: seq<Mutation>, k: Bytes, p: nat, count: Count) {
    forall i :: 0 <= i < |ms| && ms[i].Key() == k ==> LogOf(ms[i].pk, count) == p
  }

  lemma SeparateIsOnlyIn(pks: set<Bytes>, ms: seq<Mutation>, pk: Bytes, sk: Bytes, count: Count)
    requires Separate(pks, count) && Over(ms, pks) && pk in pks
    ensures OnlyIn(ms, FormatRecordKey(pk, sk), LogOf(pk, count), count)
  {
    forall i | 0 <= i < |ms| && ms[i].Key() == FormatRecordKey(pk, sk)
      ensures LogOf(ms[i].pk, count) == LogOf(pk, count)
    {
      if ms[i].pk != pk {
        CollisionIff(ms[i].pk, pk);
      }
    }
  }

  lemma {:induction false} RoutedCell(c: Cell, ms: seq<Mutation>, k: Bytes, p: nat, count: Count)
    requires OnlyIn(ms, k, p, count)
    ensures FoldCell(c, Routed(ms, p, count), k) == FoldCell(c, ms, k)
    decreases ms
  {
    hide LogOf, ApplyCell;
    if ms != [] {
      var rest := ms[1..];
      assert forall i :: 0 <= i < |rest| ==> rest[i] == ms[i + 1];
      RoutedCell(if ms[0].Key() == k then ApplyCell(c, ms[0]).cell else c, rest, k, p, count);
      if LogOf(ms[0].pk, count) == p {
        assert Routed(ms, p, count)[1..] == Routed(rest, p, count);
      } else {
        assert Routed(ms, p, count) == Routed(rest, p, count);
      }
    }
  }

  lemma OnlyInAgrees(ms: seq<Mutation>, k: Bytes, p: nat, count: Count)
    requires OnlyIn(ms, k, p, count)
    ensures AgreesAt(ms, p, count, k)
  {
    RoutedCell(None, ms, k, p, count);
    FoldIsCellwise(map[], ms, k);
    FoldIsCellwise(map[], Routed(ms, p, count), k);
  }

  lemma {:induction false} RoutedElsewhere(ms: seq<Mutation>, k: Bytes, p: nat, q: nat, count: Count)
    requires OnlyIn(ms, k, p, count) && q != p
    ensures !Touched(Routed(ms, q, count), k)
  {
    if ms != [] {
      var rest := ms[1..];
      assert forall i :: 0 <= i < |rest| ==> rest[i] == ms[i + 1];
      RoutedElsewhere(rest, k, p, q, count);
      if LogOf(ms[0].pk, count) == q {
        TouchedNext(Routed(ms, q, count), k);
        assert Routed(ms, q, count)[1..] == Routed(rest, q, count);
      }
    }
  }

  /** Two keys of different partitions, one of which begins the other up to a NUL, share a record key. */
  lemma SharedKey(p: Bytes, q: Bytes, count: Count)
    requires p + [NUL] <= q && LogOf(p, count) != LogOf(q, count)
    ensures var m := Mutation(Put, q, [], Null, 0, None);
            exists sk :: !AgreesAt([m], LogOf(p, count), count, FormatRecordKey(p, sk))
  {
    var m := Mutation(Put, q, [], Null, 0, None);
    var sk := q[|p| + 1..] + [NUL];
    assert q == p + [NUL] + q[|p| + 1..];
    assert FormatRecordKey(p, sk) == m.Key();
    assert Routed([m], LogOf(p, count), count) == [];
    assert Fold(map[], [m]) == Fold(Apply(map[], m), []);
    assert CellAt(Apply(map[], m), m.Key()).Some?;
    assert !AgreesAt([m], LogOf(p, count), count, FormatRecordKey(p, sk));
  }

  /** The partitions together are one unsharded map exactly when the keys are separate. */
  lemma ShardsIff(pks: set<Bytes>, count: Count)
    ensures Shards(pks, count) <==> Separate(pks, count)
  {
    if Separate(pks, count) {
      forall ms, pk, sk | Over(ms, pks) && pk in pks
        ensures AgreesAt(ms, LogOf(pk, count), count, FormatRecordKey(pk, sk))
      {
        SeparateIsOnlyIn(pks, ms, pk, sk, count);
        OnlyInAgrees(ms, FormatRecordKey(pk, sk), LogOf(pk, count), count);
      }
    } else {
      var p, q :| p in pks && q in pks && p + [NUL] <= q && LogOf(p, count) != LogOf(q, count);
      SharedKey(p, q, count);
      assert Over([Mutation(Put, q, [], Null, 0, None)], pks);
    }
  }

  // One worker per partition, in any interleaving.

  datatype Worker = Worker(store: Store, position: nat)

  /** Each entry of the schedule lets that partition's worker apply the next mutation of its log, if there is one. */
  function Work(logs: map<nat, seq<Mutation>>, workers: map<nat, Worker>, schedule: seq<nat>): map<nat, Worker>
    decreases schedule
  {
    if schedule == [] then workers
    else
      var p := schedule[0];
      if p in workers && p in logs && workers[p].position < |logs[p]| then
        var w := workers[p];
        Work(logs, workers[p := Worker(Apply(w.store, logs[p][w.position]), w.position + 1)], schedule[1..])
      else Work(logs, workers, schedule[1..])
  }

  ghost predicate UpToDate(logs: map<nat, seq<Mutation>>, workers: map<nat, Worker>) {
    workers.Keys == logs.Keys && forall p :: p in workers ==> IsUpToDate(logs[p], workers[p])
  }

  ghost predicate IsUpToDate(log: seq<Mutation>, w: Worker) {
    w.position <= |log| && w.store == Fold(map[], log[..w.position])
  }

  lemma OneStep(log: seq<Mutation>, w: Worker)
    requires IsUpToDate(log, w) && w.position < |log|
    ensures IsUpToDate(log, Worker(Apply(w.store, log[w.position]), w.position + 1))
  {
    FoldExtend(map[], log, 0, w.position);
    assert log[..w.position] == log[0..w.position] && log[..w.position + 1] == log[0..w.position + 1];
  }

  lemma {:induction false} WorkKeepsUpToDate(logs: map<nat, seq<Mutation>>, workers: map<nat, Worker>,
                                             schedule: seq<nat>)
    requires UpToDate(logs, workers)
    ensures UpToDate(logs, Work(logs, workers, schedule))
    decreases schedule
  {
    hide Apply, IsUpToDate;
    if schedule != [] {
      var p := schedule[0];
      if p in workers && workers[p].position < |logs[p]| {
        OneStep(logs[p], workers[p]);
        var w := Worker(Apply(workers[p].store, logs[p][workers[p].position]), workers[p].position + 1);
        WorkKeepsUpToDate(logs, workers[p := w], schedule[1..]);
      } else {
        WorkKeepsUpToDate(logs, workers, schedule[1..]);
      }
    }
  }

  ghost predicate Start(workers: map<nat, Worker>) {
    forall p :: p in workers ==> workers[p] == Worker(map[], 0)
  }

  ghost predicate Finished(logs: map<nat, seq<Mutation>>, workers: map<nat, Worker>) {
    forall p :: p in workers && p in logs ==> workers[p].position == |logs[p]|
  }

  ghost predicate AreLogsOf(logs: map<nat, seq<Mutation>>, ms: seq<Mutation>, count: Count) {
    forall p :: (p in logs <==> p < count) && (p in logs ==> logs[p] == Routed(ms, p, count))
  }

  /** Let the partitions' logs be merged in any way into ms, and their workers run in any interleaving until they are
      done. Then a record is in the store of its own partition, just as the one map built from ms has it, and in
      no other partition's store. */
  lemma ShardedIsOneMap(pks: set<Bytes>, ms: seq<Mutation>, count: Count, logs: map<nat, seq<Mutation>>,
                        workers: map<nat, Worker>, schedule: seq<nat>, pk: Bytes, sk: Bytes, p: nat)
    requires Separate(pks, count) && Over(ms, pks) && pk in pks && AreLogsOf(logs, ms, count)
    requires workers.Keys == logs.Keys && Start(workers) && Finished(logs, Work(logs, workers, schedule))
    ensures LogOf(pk, count) < count
    ensures var done := Work(logs, workers, schedule); var k := FormatRecordKey(pk, sk);
            p < count ==>
              && p in done
              && CellAt(done[p].store, k) == if p == LogOf(pk, count) then CellAt(Fold(map[], ms), k) else None
  {
    LogOfInRange(pk, count);
    hide FormatRecordKey, LogOf, Apply, Work, Routed;
    var k := FormatRecordKey(pk, sk);
    WorkKeepsUpToDate(logs, workers, schedule);
    SeparateIsOnlyIn(pks, ms, pk, sk, count);
    if p == LogOf(pk, count) {
      OnlyInAgrees(ms, k, p, count);
    } else {
      RoutedElsewhere(ms, k, LogOf(pk, count), p, count);
      FoldIsCellwise(map[], Routed(ms, p, count), k);
      Untouched(None, Routed(ms, p, count), k);
    }
    if p < count {
      assert IsUpToDate(logs[p], Work(logs, workers, schedule)[p]);
      assert logs[p][..|logs[p]|] == logs[p];
    }
  }

  ghost predicate NulFreeSet(pks: set<Bytes>) {
    forall p :: p in pks ==> NulFree(p)
  }

  /** Reading any NUL-free key from the partition of the store's own route is reading the one map, for every log. */
  ghost predicate ReadsTheOneMap(count: Count) {
    forall pks, ms, pk, sk :: NulFreeSet(pks) && Over(ms, pks) && pk in pks ==>
      AgreesAt(ms, StoreOf(pk, count), count, FormatRecordKey(pk, sk))
  }

  lemma ReadsAgree(pks: set<Bytes>, ms: seq<Mutation>, count: Count, pk: Bytes, sk: Bytes)
    requires TWO_31 % count == 0 && NulFreeSet(pks) && Over(ms, pks) && pk in pks
    ensures StoreOf(pk, count) == LogOf(pk, count)
    ensures AgreesAt(ms, StoreOf(pk, count), count, FormatRecordKey(pk, sk))
  {
    NulFreeIsSeparate(pks, count);
    SeparateIsOnlyIn(pks, ms, pk, sk, count);
    OnlyInAgrees(ms, FormatRecordKey(pk, sk), LogOf(pk, count), count);
    RoutesAgreeIff(count);
  }

  /** A mutation that went to another partition is not found. */
  lemma ReadElsewhere(pk: Bytes, count: Count, p: nat)
    requires p != LogOf(pk, count)
    ensures !AgreesAt([Mutation(Put, pk, [], Null, 0, None)], p, count, FormatRecordKey(pk, []))
  {
    var m := Mutation(Put, pk, [], Null, 0, None);
    assert Routed([m], p, count) == [];
    assert Fold(map[], [m]) == Fold(Apply(map[], m), []);
    assert CellAt(Apply(map[], m), m.Key()).Some?;
  }

  /** The store reads what the log wrote, key by key, exactly when the number of partitions divides 2^31. */
  lemma ReadsIff(count: Count)
    ensures ReadsTheOneMap(count) <==> TWO_31 % count == 0
  {
    hide AgreesAt, StoreOf, LogOf;
    if TWO_31 % count == 0 {
      forall pks, ms, pk, sk | NulFreeSet(pks) && Over(ms, pks) && pk in pks
        ensures AgreesAt(ms, StoreOf(pk, count), count, FormatRecordKey(pk, sk))
      {
        ReadsAgree(pks, ms, count, pk, sk);
      }
    } else {
      TopKeyIsLost(count);
      assert Over([Mutation(Put, TOP_KEY, [], Null, 0, None)], {TOP_KEY}) && NulFreeSet({TOP_KEY});
    }
  }

  lemma TopKeyIsLost(count: Count)
    requires TWO_31 % count != 0
    ensures !AgreesAt([Mutation(Put, TOP_KEY, [], Null, 0, None)], StoreOf(TOP_KEY, count), count,
              FormatRecordKey(TOP_KEY, []))
  {
    TopKeyRoutes(count);
    ReadElsewhere(TOP_KEY, count, StoreOf(TOP_KEY, count));
  }
}
