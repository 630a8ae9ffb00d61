/** The request handlers: splitting mutations and reads by partition, and merging what is read. */
module Api {
  import opened ByteStrings
  import opened Records
  import opened PartitionState
  import opened Partitions
  import opened Managers
  import opened Routing
  import opened Sequences
  import opened Sharding

  // Mutations.

  /** The records of a request, with its operation and its time. */
  function Stamped(records: seq<Mutation>, op: Operation, now: int): (ms: seq<Mutation>)
    ensures |ms| == |records|
    ensures forall i :: 0 <= i < |ms| ==>
            ms[i] == Mutation(op, records[i].pk, records[i].sk, records[i].data, now, records[i].cond)
  {
    seq(|records|, i requires 0 <= i < |records| => records[i].(op := op, tsMs := now))
  }

  /** The mutations whose key the store's route puts in partition p, in order. */
  function Grouped(ms: seq<Mutation>, p: nat, count: Count): seq<Mutation> {
    if ms == [] then []
    else (if StoreOf(ms[0].pk, count) == p then [ms[0]] else []) + Grouped(ms[1..], p, count)
  }

  ghost predicate AreGroups(ms: seq<Mutation>, groups: map<nat, seq<Mutation>>, count: Count) {
    forall p ::
      if p in groups then groups[p] == Grouped(ms, p, count) && groups[p] != [] else Grouped(ms, p, count) == []
  }

  lemma {:induction false} GroupedNext(ms: seq<Mutation>, m: Mutation, p: nat, count: Count)
    ensures Grouped(ms + [m], p, count) == Grouped(ms, p, count) + if StoreOf(m.pk, count) == p then [m] else []
  {
    hide StoreOf;
    if ms == [] {
      assert ms + [m] == [m];
    } else {
      assert (ms + [m])[1..] == ms[1..] + [m];
      GroupedNext(ms[1..], m, p, count);
      var head := if StoreOf(ms[0].pk, count) == p then [ms[0]] else [];
      assert Grouped(ms + [m], p, count) == head + Grouped(ms[1..] + [m], p, count);
    }
  }

  lemma GroupsNext(ms: seq<Mutation>, m: Mutation, groups: map<nat, seq<Mutation>>, count: Count)
    requires AreGroups(ms, groups, count)
    ensures var p := StoreOf(m.pk, count);
            AreGroups(ms + [m], groups[p := if p in groups then groups[p] + [m] else [m]], count)
  {
    hide StoreOf, Grouped;
    forall p
      ensures Grouped(ms + [m], p, count) == Grouped(ms, p, count) + if StoreOf(m.pk, count) == p then [m] else []
    {
      GroupedNext(ms, m, p, count);
    }
  }

  /** The mutations that the store's route puts in partition p, in order. */
  ghost predicate AreRoutedTo(ms: seq<Mutation>, p: nat, count: Count, group: seq<Mutation>) {
    Filtered(ms, (m: Mutation) => StoreOf(m.pk, count) == p, group)
  }

  lemma {:induction false} GroupedIff(ms: seq<Mutation>, p: nat, count: Count, group: seq<Mutation>)
    ensures group == Grouped(ms, p, count) <==> AreRoutedTo(ms, p, count, group)
    decreases |ms|
  {
    hide StoreOf, Filtered, FilteredAt;
    var keep := (m: Mutation) => StoreOf(m.pk, count) == p;
    if ms == [] {
      FilteredNothing(keep);
    } else {
      var n := |ms| - 1;
      assert ms == ms[..n] + [ms[n]];
      GroupedIff(ms[..n], p, count, Grouped(ms[..n], p, count));
      GroupedNext(ms[..n], ms[n], p, count);
      FilteredNext(ms[..n], keep, Grouped(ms[..n], p, count), ms[n]);
    }
    if AreRoutedTo(ms, p, count, group) {
      FilteredOnce(ms, keep, group, Grouped(ms, p, count));
    }
  }

  /** A request is refused whole when one of its conditions does not compile; otherwise its mutations are grouped. */
  method HandleMutation(records: seq<Mutation>, op: Operation, now: int, compiles: Condition -> bool, count: Count)
    returns (partMap: Option<map<nat, seq<Mutation>>>)
    ensures partMap == None <==>
            exists i :: 0 <= i < |records| && records[i].cond.Some? && !compiles(records[i].cond.value)
    ensures partMap.Some? ==> AreGroups(Stamped(records, op, now), partMap.value, count)
    ensures partMap.Some? ==>
              forall p ::
                AreRoutedTo(Stamped(records, op, now), p, count, if p in partMap.value then partMap.value[p] else [])
  {
    hide StoreOf, AreGroups, AreRoutedTo;
    var groups: map<nat, seq<Mutation>> := map[];
    NoGroups(count);
    for i := 0 to |records|
      invariant AreGroups(Stamped(records, op, now)[..i], groups, count)
      invariant forall j :: 0 <= j < i ==> records[j].cond.Some? ==> compiles(records[j].cond.value)
    {
      var mut := records[i].(op := op, tsMs := now);
      if mut.cond.Some? && !compiles(mut.cond.value) {
        return None;
      }
      var partID := StoreOf(mut.pk, count);
      GroupsNext(Stamped(records, op, now)[..i], mut, groups, count);
      assert Stamped(records, op, now)[..i + 1] == Stamped(records, op, now)[..i] + [mut];
      groups := groups[partID := if partID in groups then groups[partID] + [mut] else [mut]];
    }
    assert Stamped(records, op, now)[..|records|] == Stamped(records, op, now);
    GroupsAreRouted(Stamped(records, op, now), groups, count);
    partMap := Some(groups);
  }

  lemma GroupsAreRouted(ms: seq<Mutation>, groups: map<nat, seq<Mutation>>, count: Count)
    requires AreGroups(ms, groups, count)
    ensures forall p :: AreRoutedTo(ms, p, count, if p in groups then groups[p] else [])
  {
    hide AreRoutedTo, Grouped;
    forall p
      ensures AreRoutedTo(ms, p, count, if p in groups then groups[p] else [])
    {
      GroupedIff(ms, p, count, Grouped(ms, p, count));
    }
  }

  lemma NoGroups(count: Count)
    ensures AreGroups([], map[], count)
  {
  }

  lemma {:induction false} GroupedIsRouted(ms: seq<Mutation>, p: nat, count: Count)
    requires TWO_31 % count == 0
    ensures Grouped(ms, p, count) == Routed(ms, p, count)
  {
    RoutesAgreeIff(count);
    if ms != [] {
      GroupedIsRouted(ms[1..], p, count);
    }
  }

  /** When the number of partitions divides 2^31, producing each group to the log extends the logs of what came
      before to the logs of what came before and then this request, in order. */
  lemma ProducingGroups(before: seq<Mutation>, ms: seq<Mutation>, groups: map<nat, seq<Mutation>>, p: nat, count: Count)
    requires TWO_31 % count == 0 && AreGroups(ms, groups, count)
    ensures Routed(before + ms, p, count) == Routed(before, p, count) + if p in groups then groups[p] else []
  {
    RoutedConcat(before, ms, p, count);
    GroupedIsRouted(ms, p, count);
  }

  // Reads.

  function KeysOf(keys: seq<RecordKey>, p: nat, count: Count): seq<RecordKey> {
    if keys == [] then []
    else (if StoreOf(keys[0].pk, count) == p then [keys[0]] else []) + KeysOf(keys[1..], p, count)
  }

  ghost predicate AreKeys(keys: seq<RecordKey>, some: map<nat, seq<RecordKey>>, ps: set<nat>, inside: bool,
                          count: Count) {
    forall p ::
      if p in some then (p in ps <==> inside) && some[p] == KeysOf(keys, p, count) && some[p] != []
      else (p in ps <==> inside) ==> KeysOf(keys, p, count) == []
  }

  lemma {:induction false} KeysNext(keys: seq<RecordKey>, key: RecordKey, p: nat, count: Count)
    ensures KeysOf(keys + [key], p, count) == KeysOf(keys, p, count) + if StoreOf(key.pk, count) == p then [key] else []
  {
    hide StoreOf;
    if keys == [] {
      assert keys + [key] == [key];
    } else {
      assert (keys + [key])[1..] == keys[1..] + [key];
      KeysNext(keys[1..], key, p, count);
      var head := if StoreOf(keys[0].pk, count) == p then [keys[0]] else [];
      assert KeysOf(keys + [key], p, count) == head + KeysOf(keys[1..] + [key], p, count);
    }
  }

  /** The requested keys that the store's route puts in partition p, in order. */
  ghost predicate AreKeysTo(keys: seq<RecordKey>, p: nat, count: Count, some: seq<RecordKey>) {
    Filtered(keys, (key: RecordKey) => StoreOf(key.pk, count) == p, some)
  }

  lemma {:induction false} KeysOfIff(keys: seq<RecordKey>, p: nat, count: Count, some: seq<RecordKey>)
    ensures some == KeysOf(keys, p, count) <==> AreKeysTo(keys, p, count, some)
    decreases |keys|
  {
    hide StoreOf, Filtered, FilteredAt;
    var keep := (key: RecordKey) => StoreOf(key.pk, count) == p;
    if keys == [] {
      FilteredNothing(keep);
    } else {
      var n := |keys| - 1;
      assert keys == keys[..n] + [keys[n]];
      KeysOfIff(keys[..n], p, count, KeysOf(keys[..n], p, count));
      KeysNext(keys[..n], keys[n], p, count);
      FilteredNext(keys[..n], keep, KeysOf(keys[..n], p, count), keys[n]);
    }
    if AreKeysTo(keys, p, count, some) {
      FilteredOnce(keys, keep, some, KeysOf(keys, p, count));
    }
  }

  function WithKey(some: map<nat, seq<RecordKey>>, p: nat, key: RecordKey): map<nat, seq<RecordKey>> {
    some[p := if p in some then some[p] + [key] else [key]]
  }

  lemma AreKeysNext(keys: seq<RecordKey>, key: RecordKey, some: map<nat, seq<RecordKey>>, ps: set<nat>, inside: bool,
                    count: Count)
    requires AreKeys(keys, some, ps, inside, count)
    ensures var p := StoreOf(key.pk, count);
            AreKeys(keys + [key], if p in ps <==> inside then WithKey(some, p, key) else some, ps, inside, count)
  {
    hide StoreOf, KeysOf;
    forall p
      ensures KeysOf(keys + [key], p, count) ==
              KeysOf(keys, p, count) + if StoreOf(key.pk, count) == p then [key] else []
    {
      KeysNext(keys, key, p, count);
    }
  }

  lemma NoKeys(ps: set<nat>, inside: bool, count: Count)
    ensures AreKeys([], map[], ps, inside, count)
  {
  }

  /** The requested keys, by partition, local and remote. */
  method SplitKeys(keys: seq<RecordKey>, localPartitions: seq<nat>, count: Count)
    returns (localKeys: map<nat, seq<RecordKey>>, remoteKeys: map<nat, seq<RecordKey>>)
    ensures AreKeys(keys, localKeys, Elements(localPartitions), true, count)
    ensures AreKeys(keys, remoteKeys, Elements(localPartitions), false, count)
    ensures forall p :: p in localPartitions ==>
              p !in remoteKeys && AreKeysTo(keys, p, count, if p in localKeys then localKeys[p] else [])
    ensures forall p :: p !in localPartitions ==>
              p !in localKeys && AreKeysTo(keys, p, count, if p in remoteKeys then remoteKeys[p] else [])
  {
    hide StoreOf, AreKeys, AreKeysTo;
    ghost var local := Elements(localPartitions);
    localKeys, remoteKeys := map[], map[];
    NoKeys(local, true, count);
    NoKeys(local, false, count);
    for i := 0 to |keys|
      invariant AreKeys(keys[..i], localKeys, local, true, count) && AreKeys(keys[..i], remoteKeys, local, false, count)
    {
      var key := keys[i];
      var part := StoreOf(key.pk, count);
      AreKeysNext(keys[..i], key, localKeys, local, true, count);
      AreKeysNext(keys[..i], key, remoteKeys, local, false, count);
      assert keys[..i + 1] == keys[..i] + [key];
      if part in localPartitions {
        localKeys := WithKey(localKeys, part, key);
      } else {
        remoteKeys := WithKey(remoteKeys, part, key);
      }
    }
    assert keys[..|keys|] == keys;
    SplitIsRouted(keys, localKeys, local, true, count);
    SplitIsRouted(keys, remoteKeys, local, false, count);
  }

  lemma SplitIsRouted(keys: seq<RecordKey>, some: map<nat, seq<RecordKey>>, ps: set<nat>, inside: bool, count: Count)
    requires AreKeys(keys, some, ps, inside, count)
    ensures forall p :: (p in ps <==> inside) ==> AreKeysTo(keys, p, count, if p in some then some[p] else [])
    ensures forall p :: p in some ==> (p in ps <==> inside)
  {
    hide AreKeysTo, KeysOf;
    forall p
      ensures AreKeysTo(keys, p, count, KeysOf(keys, p, count))
    {
      KeysOfIff(keys, p, count, KeysOf(keys, p, count));
    }
  }

  /** What becomes of asking another node: no address is known (or there is no gossip), an error, or its records. */
  datatype Reply = NoAddress | Failure | Answered(records: seq<Record>)

  type Remote = (nat, seq<RecordKey>) -> Reply

  predicate Served(view: map<nat, Part>, remote: Remote, keys: seq<RecordKey>, count: Count, p: nat) {
    p in view || remote(p, KeysOf(keys, p, count)).Answered?
  }

  /** What is read for the requested keys of partition p. */
  function AnswerOf(view: map<nat, Part>, remote: Remote, keys: seq<RecordKey>, count: Count, p: nat): seq<Record> {
    if p in view then Lookups(view[p].disk.store, KeysOf(keys, p, count))
    else
      var reply := remote(p, KeysOf(keys, p, count));
      if reply.Answered? then reply.records else []
  }

  function Collected(view: map<nat, Part>, remote: Remote, keys: seq<RecordKey>, count: Count,
                     order: seq<nat>): seq<Record> {
    if order == [] then []
    else AnswerOf(view, remote, keys, count, order[0]) + Collected(view, remote, keys, count, order[1..])
  }

  lemma {:induction false} CollectedConcat(view: map<nat, Part>, remote: Remote, keys: seq<RecordKey>, count: Count,
                                           a: seq<nat>, b: seq<nat>)
    ensures Collected(view, remote, keys, count, a + b) ==
            Collected(view, remote, keys, count, a) + Collected(view, remote, keys, count, b)
    decreases a
  {
    hide AnswerOf;
    if a == [] {
      assert a + b == b;
    } else {
      assert (a + b)[1..] == a[1..] + b;
      CollectedConcat(view, remote, keys, count, a[1..], b);
    }
  }

  lemma {:induction false} GatherIsCollected(view: map<nat, Part>, remote: Remote, keys: seq<RecordKey>, count: Count,
                                             localKeys: map<nat, seq<RecordKey>>, order: seq<nat>)
    requires AreKeys(keys, localKeys, view.Keys, true, count) && forall p :: p in order ==> p in localKeys
    ensures Gather(view, localKeys, order) == Collected(view, remote, keys, count, order)
    decreases order
  {
    hide Lookups, KeysOf;
    if order != [] {
      assert order[0] in order;
      GatherIsCollected(view, remote, keys, count, localKeys, order[1..]);
    }
  }

  // How often a record is read from partitions that are open here.

  /** The requested positions of partition p at which this store has the record. */
  ghost function AskingOf(st: Store, keys: seq<RecordKey>, p: nat, count: Count, r: Record): set<nat> {
    set i: nat | i < |keys| && StoreOf(keys[i].pk, count) == p && Has(st, keys[i], r)
  }

  lemma AskingOfNext(st: Store, keys: seq<RecordKey>, key: RecordKey, p: nat, count: Count, r: Record)
    ensures |AskingOf(st, keys + [key], p, count, r)| ==
            |AskingOf(st, keys, p, count, r)| + if StoreOf(key.pk, count) == p && Has(st, key, r) then 1 else 0
  {
    hide Has, StoreOf;
    var more := if StoreOf(key.pk, count) == p && Has(st, key, r) then {|keys|} else {};
    assert AskingOf(st, keys + [key], p, count, r) == AskingOf(st, keys, p, count, r) + more;
  }

  lemma {:induction false} AskingOfPartition(st: Store, keys: seq<RecordKey>, p: nat, count: Count, r: Record)
    ensures |Asking(st, KeysOf(keys, p, count), r)| == |AskingOf(st, keys, p, count, r)|
    decreases |keys|
  {
    hide Has, StoreOf;
    if keys == [] {
      assert Asking(st, [], r) == {} && AskingOf(st, [], p, count, r) == {};
    } else {
      var n := |keys| - 1;
      assert keys == keys[..n] + [keys[n]];
      AskingOfPartition(st, keys[..n], p, count, r);
      KeysNext(keys[..n], keys[n], p, count);
      AskingNext(st, KeysOf(keys[..n], p, count), keys[n], r);
      AskingOfNext(st, keys[..n], keys[n], p, count, r);
      assert KeysOf(keys[..n], p, count) + [] == KeysOf(keys[..n], p, count);
    }
  }

  /** The requested positions at which the open partition that the key belongs to has the record. */
  ghost function AskingHere(view: map<nat, Part>, keys: seq<RecordKey>, count: Count, r: Record): set<nat> {
    set i: nat | i < |keys| && StoreOf(keys[i].pk, count) in view &&
                 Has(view[StoreOf(keys[i].pk, count)].disk.store, keys[i], r)
  }

  ghost predicate AllOpen(view: map<nat, Part>, keys: seq<RecordKey>, count: Count) {
    forall i :: 0 <= i < |keys| ==> StoreOf(keys[i].pk, count) in view
  }

  /** Every record is read as often as it is asked for. */
  ghost predicate AsAsked(view: map<nat, Part>, keys: seq<RecordKey>, count: Count, records: seq<Record>) {
    forall r :: multiset(records)[r] == |AskingHere(view, keys, count, r)|
  }

  ghost function AskingIn(view: map<nat, Part>, keys: seq<RecordKey>, count: Count, order: seq<nat>,
                          r: Record): set<nat> {
    set i | i in AskingHere(view, keys, count, r) && StoreOf(keys[i].pk, count) in order
  }

  lemma AskingInNext(view: map<nat, Part>, keys: seq<RecordKey>, count: Count, p: nat, rest: seq<nat>, r: Record)
    requires p in view && p !in rest
    ensures |AskingIn(view, keys, count, [p] + rest, r)| ==
            |AskingOf(view[p].disk.store, keys, p, count, r)| + |AskingIn(view, keys, count, rest, r)|
  {
    hide Has, StoreOf;
    var first, others := AskingOf(view[p].disk.store, keys, p, count, r), AskingIn(view, keys, count, rest, r);
    assert AskingIn(view, keys, count, [p] + rest, r) == first + others;
    assert first !! others;
  }

  lemma {:induction false} CollectedHere(view: map<nat, Part>, remote: Remote, keys: seq<RecordKey>, count: Count,
                                         order: seq<nat>, r: Record)
    requires NoDuplicates(order) && forall p :: p in order ==> p in view
    ensures multiset(Collected(view, remote, keys, count, order))[r] == |AskingIn(view, keys, count, order, r)|
    decreases order
  {
    hide Has, StoreOf, Lookups, KeysOf, AskingHere;
    if order == [] {
      assert AskingIn(view, keys, count, order, r) == {};
    } else {
      var p, rest := order[0], order[1..];
      assert order == [p] + rest && p in order;
      assert p !in rest;
      CollectedHere(view, remote, keys, count, rest, r);
      ReadAsOftenAsAsked(view[p].disk.store, KeysOf(keys, p, count), r);
      AskingOfPartition(view[p].disk.store, keys, p, count, r);
      AskingInNext(view, keys, count, p, rest, r);
    }
  }

  lemma {:induction false} KeyIsOfItsPartition(keys: seq<RecordKey>, i: nat, count: Count)
    requires i < |keys|
    ensures keys[i] in KeysOf(keys, StoreOf(keys[i].pk, count), count)
  {
    hide StoreOf;
    if i > 0 {
      KeyIsOfItsPartition(keys[1..], i - 1, count);
    }
  }

  lemma AllHere(view: map<nat, Part>, remote: Remote, keys: seq<RecordKey>, count: Count, order: seq<nat>)
    requires Covers(order, keys, count) && AllOpen(view, keys, count)
    ensures forall p :: KeysOf(keys, p, count) != [] ==> p in view
    ensures AsAsked(view, keys, count, Collected(view, remote, keys, count, order))
  {
    hide StoreOf, KeysOf, Collected, Has;
    forall p | KeysOf(keys, p, count) != []
      ensures p in view
    {
      KeysOfMembers(keys, p, count);
      assert KeysOf(keys, p, count)[0] in keys;
    }
    forall r
      ensures multiset(Collected(view, remote, keys, count, order))[r] == |AskingHere(view, keys, count, r)|
    {
      CollectedHere(view, remote, keys, count, order, r);
      forall i | i in AskingHere(view, keys, count, r)
        ensures StoreOf(keys[i].pk, count) in order
      {
        KeyIsOfItsPartition(keys, i, count);
      }
      assert AskingIn(view, keys, count, order, r) == AskingHere(view, keys, count, r);
    }
  }

  /** The partitions asked about, each once. */
  ghost predicate Covers(order: seq<nat>, keys: seq<RecordKey>, count: Count) {
    NoDuplicates(order) && forall p :: p in order <==> KeysOf(keys, p, count) != []
  }

  /** What a read has collected while some of its jobs are left: the local one (None) and one per remote partition. */
  ghost predicate Collecting(view: map<nat, Part>, remote: Remote, keys: seq<RecordKey>, count: Count,
                             localKeys: map<nat, seq<RecordKey>>, remoteKeys: map<nat, seq<RecordKey>>,
                             jobs: set<Option<nat>>, order: seq<nat>, records: seq<Record>, failed: bool) {
    && NoDuplicates(order) && records == Collected(view, remote, keys, count, order)
    && (forall p :: Some(p) in jobs ==> p in remoteKeys)
    && (forall p :: p in order <==> (p in localKeys && None !in jobs) || (p in remoteKeys && Some(p) !in jobs))
    && (failed <==> exists p :: p in remoteKeys && Some(p) !in jobs && remote(p, remoteKeys[p]) == Failure)
  }

  lemma CollectingLocal(view: map<nat, Part>, remote: Remote, keys: seq<RecordKey>, count: Count,
                        localKeys: map<nat, seq<RecordKey>>, remoteKeys: map<nat, seq<RecordKey>>,
                        jobs: set<Option<nat>>, order: seq<nat>, records: seq<Record>, failed: bool, read: seq<nat>)
    requires AreKeys(keys, localKeys, view.Keys, true, count) && AreKeys(keys, remoteKeys, view.Keys, false, count)
    requires Collecting(view, remote, keys, count, localKeys, remoteKeys, jobs, order, records, failed) && None in jobs
    requires NoDuplicates(read) && forall p :: p in read <==> p in localKeys
    ensures Collecting(view, remote, keys, count, localKeys, remoteKeys, jobs - {None}, order + read,
                       records + Gather(view, localKeys, read), failed)
  {
    hide Collected, KeysOf, Gather;
    GatherIsCollected(view, remote, keys, count, localKeys, read);
    CollectedConcat(view, remote, keys, count, order, read);
    assert forall p :: p in order ==> p !in read;
    NoDuplicatesConcat(order, read);
  }

  lemma CollectingRemote(view: map<nat, Part>, remote: Remote, keys: seq<RecordKey>, count: Count,
                         localKeys: map<nat, seq<RecordKey>>, remoteKeys: map<nat, seq<RecordKey>>,
                         jobs: set<Option<nat>>, order: seq<nat>, records: seq<Record>, failed: bool, p: nat)
    requires AreKeys(keys, localKeys, view.Keys, true, count) && AreKeys(keys, remoteKeys, view.Keys, false, count)
    requires Collecting(view, remote, keys, count, localKeys, remoteKeys, jobs, order, records, failed) &&
             Some(p) in jobs
    ensures var reply := remote(p, remoteKeys[p]);
            Collecting(view, remote, keys, count, localKeys, remoteKeys, jobs - {Some(p)}, order + [p],
                       records + if reply.Answered? then reply.records else [], failed || reply == Failure)
  {
    hide KeysOf;
    assert Collected(view, remote, keys, count, [p]) ==
      AnswerOf(view, remote, keys, count, p) + Collected(view, remote, keys, count, []);
    CollectedConcat(view, remote, keys, count, order, [p]);
    assert p !in order;
    NoDuplicatesConcat(order, [p]);
  }

  /** A read fails when a remote node fails; otherwise it returns, in the arbitrary order of arrival, what each
      partition that it asks about answers. */
  method HandleGet(manager: PartitionManager, keys: seq<RecordKey>, remote: Remote, count: Count)
    returns (response: Option<seq<Record>>, ghost order: seq<nat>)
    requires manager.Valid()
    ensures Covers(order, keys, count)
    ensures response == None <==>
            exists p ::
              p !in manager.View() && KeysOf(keys, p, count) != [] && remote(p, KeysOf(keys, p, count)) == Failure
    ensures response.Some? ==> response.value == Collected(manager.View(), remote, keys, count, order)
    ensures AllOpen(manager.View(), keys, count) ==>
              response.Some? && AsAsked(manager.View(), keys, count, response.value)
  {
    hide PartitionManager.View, PartitionManager.Valid, Collecting, AreKeys, AreKeysTo, Collected, Gather, KeysOf;
    hide StoreOf, AllOpen, AsAsked, IsAsked, Covers;
    ghost var view := manager.View();
    var localPartitions := manager.GetPartitionIDs();
    assert Elements(localPartitions) == view.Keys;
    var localKeys, remoteKeys := SplitKeys(keys, localPartitions, count);
    var jobs: set<Option<nat>> := {None} + set p | p in remoteKeys :: Some(p);
    var records: seq<Record> := [];
    var failed := false;
    order := [];
    CollectingStarts(view, remote, keys, count, localKeys, remoteKeys);
    while jobs != {}
      invariant Collecting(view, remote, keys, count, localKeys, remoteKeys, jobs, order, records, failed)
      decreases jobs
    {
      var job :| job in jobs;
      match job {
      case None =>
        var result, read := manager.ReadRecords(localKeys);
        CollectingLocal(view, remote, keys, count, localKeys, remoteKeys, jobs, order, records, failed, read);
        records, order := records + result, order + read;
      case Some(partition) =>
        CollectingRemote(view, remote, keys, count, localKeys, remoteKeys, jobs, order, records, failed, partition);
        JobIsRemote(view, remote, keys, count, localKeys, remoteKeys, jobs, order, records, failed, partition);
        var reply := remote(partition, remoteKeys[partition]);
        records := records + if reply.Answered? then reply.records else [];
        order, failed := order + [partition], failed || reply == Failure;
      }
      jobs := jobs - {job};
    }
    CollectingEnds(view, remote, keys, count, localKeys, remoteKeys, order, records, failed);
    response := if failed then None else Some(records);
  }

  lemma JobIsRemote(view: map<nat, Part>, remote: Remote, keys: seq<RecordKey>, count: Count,
                     localKeys: map<nat, seq<RecordKey>>, remoteKeys: map<nat, seq<RecordKey>>,
                     jobs: set<Option<nat>>, order: seq<nat>, records: seq<Record>, failed: bool, p: nat)
    requires Collecting(view, remote, keys, count, localKeys, remoteKeys, jobs, order, records, failed) &&
             Some(p) in jobs
    ensures p in remoteKeys
  {
  }

  lemma CollectingStarts(view: map<nat, Part>, remote: Remote, keys: seq<RecordKey>, count: Count,
                         localKeys: map<nat, seq<RecordKey>>, remoteKeys: map<nat, seq<RecordKey>>)
    ensures Collecting(view, remote, keys, count, localKeys, remoteKeys,
                       {None} + set p | p in remoteKeys :: Some(p), [], [], false)
  {
  }

  lemma CollectingEnds(view: map<nat, Part>, remote: Remote, keys: seq<RecordKey>, count: Count,
                       localKeys: map<nat, seq<RecordKey>>, remoteKeys: map<nat, seq<RecordKey>>,
                       order: seq<nat>, records: seq<Record>, failed: bool)
    requires AreKeys(keys, localKeys, view.Keys, true, count) && AreKeys(keys, remoteKeys, view.Keys, false, count)
    requires Collecting(view, remote, keys, count, localKeys, remoteKeys, {}, order, records, failed)
    ensures Covers(order, keys, count) && records == Collected(view, remote, keys, count, order)
    ensures failed <==>
            exists p :: p !in view && KeysOf(keys, p, count) != [] && remote(p, KeysOf(keys, p, count)) == Failure
    ensures AllOpen(view, keys, count) ==> !failed && AsAsked(view, keys, count, records)
  {
    hide KeysOf, Collected, AllOpen, AsAsked;
    forall p
      ensures p in localKeys <==> p in view && KeysOf(keys, p, count) != []
      ensures p in remoteKeys <==> p !in view && KeysOf(keys, p, count) != []
    {
    }
    if AllOpen(view, keys, count) {
      AllHere(view, remote, keys, count, order);
    }
  }

  // What a read returns, against one map.

  function Others(keys: seq<RecordKey>, p: nat, count: Count): (r: seq<RecordKey>)
    ensures |r| <= |keys|
  {
    if keys == [] then []
    else (if StoreOf(keys[0].pk, count) == p then [] else [keys[0]]) + Others(keys[1..], p, count)
  }

  lemma {:induction false} LookupsSplit(st: Store, keys: seq<RecordKey>, p: nat, count: Count)
    ensures multiset(Lookups(st, keys)) == multiset(Lookups(st, KeysOf(keys, p, count)))
            + multiset(Lookups(st, Others(keys, p, count)))
    decreases keys
  {
    hide StoreOf, Lookups;
    NothingLooksUpNothing(st);
    if keys != [] {
      LookupsSplit(st, keys[1..], p, count);
      LookupsCons(st, keys[0], keys[1..]);
      assert keys == [keys[0]] + keys[1..];
      if StoreOf(keys[0].pk, count) == p {
        LookupsCons(st, keys[0], KeysOf(keys[1..], p, count));
        assert Others(keys, p, count) == Others(keys[1..], p, count);
      } else {
        LookupsCons(st, keys[0], Others(keys[1..], p, count));
        assert KeysOf(keys, p, count) == KeysOf(keys[1..], p, count);
      }
    }
  }

  lemma LookupsCons(st: Store, key: RecordKey, rest: seq<RecordKey>)
    ensures Lookups(st, [key] + rest) == Lookups(st, [key]) + Lookups(st, rest)
  {
    LookupsConcat(st, [key], rest);
  }

  lemma {:induction false} KeysOfOthers(keys: seq<RecordKey>, p: nat, q: nat, count: Count)
    ensures KeysOf(Others(keys, p, count), q, count) == if q == p then [] else KeysOf(keys, q, count)
    decreases keys
  {
    hide StoreOf;
    if keys != [] {
      KeysOfOthers(keys[1..], p, q, count);
      if StoreOf(keys[0].pk, count) == p {
        assert Others(keys, p, count) == Others(keys[1..], p, count);
      } else {
        assert Others(keys, p, count)[1..] == Others(keys[1..], p, count);
      }
    }
  }

  function Flatten(answers: nat -> seq<Record>, order: seq<nat>): seq<Record> {
    if order == [] then [] else answers(order[0]) + Flatten(answers, order[1..])
  }

  lemma FirstKeyIsSomewhere(keys: seq<RecordKey>, count: Count)
    ensures keys == [] || KeysOf(keys, StoreOf(keys[0].pk, count), count) != []
  {
  }

  lemma NoKeysLeft(keys: seq<RecordKey>, count: Count)
    requires forall p :: KeysOf(keys, p, count) == []
    ensures keys == []
  {
    FirstKeyIsSomewhere(keys, count);
  }

  /** Answers that are right partition by partition are right together, whatever the order of the partitions. */
  lemma {:induction false} RightTogether(st: Store, keys: seq<RecordKey>, count: Count, answers: nat -> seq<Record>,
                                         order: seq<nat>)
    requires NoDuplicates(order) && forall p :: KeysOf(keys, p, count) != [] ==> p in order
    requires forall p :: p in order ==> multiset(answers(p)) == multiset(Lookups(st, KeysOf(keys, p, count)))
    ensures multiset(Flatten(answers, order)) == multiset(Lookups(st, keys))
    decreases order
  {
    hide StoreOf, KeysOf, Others, Lookups;
    if order == [] {
      NoKeysLeft(keys, count);
      NothingLooksUpNothing(st);
    } else {
      var p, rest := order[0], order[1..];
      assert order == [p] + rest && p !in rest;
      forall q
        ensures KeysOf(Others(keys, p, count), q, count) == if q == p then [] else KeysOf(keys, q, count)
      {
        KeysOfOthers(keys, p, q, count);
      }
      RightTogether(st, Others(keys, p, count), count, answers, rest);
      LookupsSplit(st, keys, p, count);
      assert p in order;
    }
  }

  lemma NothingLooksUpNothing(st: Store)
    ensures Lookups(st, []) == []
  {
  }

  /** The requested keys whose partition is open here or answered elsewhere. */
  function ServedKeys(view: map<nat, Part>, remote: Remote, all: seq<RecordKey>, keys: seq<RecordKey>,
                      count: Count): seq<RecordKey> {
    if keys == [] then []
    else
      (if Served(view, remote, all, count, StoreOf(keys[0].pk, count)) then [keys[0]] else [])
      + ServedKeys(view, remote, all, keys[1..], count)
  }

  lemma {:induction false} ServedKeysNext(view: map<nat, Part>, remote: Remote, all: seq<RecordKey>,
                                          keys: seq<RecordKey>, key: RecordKey, count: Count)
    ensures ServedKeys(view, remote, all, keys + [key], count) ==
            ServedKeys(view, remote, all, keys, count) +
              if Served(view, remote, all, count, StoreOf(key.pk, count)) then [key] else []
    decreases keys
  {
    hide StoreOf, Served;
    if keys == [] {
      assert keys + [key] == [key];
    } else {
      assert (keys + [key])[1..] == keys[1..] + [key];
      ServedKeysNext(view, remote, all, keys[1..], key, count);
      var head := if Served(view, remote, all, count, StoreOf(keys[0].pk, count)) then [keys[0]] else [];
      assert ServedKeys(view, remote, all, keys + [key], count) ==
        head + ServedKeys(view, remote, all, keys[1..] + [key], count);
    }
  }

  /** The requested positions that are served and at which the store has the record. */
  ghost function AskingServed(st: Store, view: map<nat, Part>, remote: Remote, all: seq<RecordKey>,
                              keys: seq<RecordKey>, count: Count, r: Record): set<nat> {
    set i: nat | i < |keys| && Served(view, remote, all, count, StoreOf(keys[i].pk, count)) && Has(st, keys[i], r)
  }

  lemma AskingServedNext(st: Store, view: map<nat, Part>, remote: Remote, all: seq<RecordKey>, keys: seq<RecordKey>,
                         key: RecordKey, count: Count, r: Record)
    ensures |AskingServed(st, view, remote, all, keys + [key], count, r)| ==
            |AskingServed(st, view, remote, all, keys, count, r)| +
              if Served(view, remote, all, count, StoreOf(key.pk, count)) && Has(st, key, r) then 1 else 0
  {
    hide Served, StoreOf, Has;
    var more := if Served(view, remote, all, count, StoreOf(key.pk, count)) && Has(st, key, r) then {|keys|} else {};
    assert AskingServed(st, view, remote, all, keys + [key], count, r) ==
      AskingServed(st, view, remote, all, keys, count, r) + more;
  }

  lemma {:induction false} ServedAsOftenAsAsked(st: Store, view: map<nat, Part>, remote: Remote, all: seq<RecordKey>,
                                                keys: seq<RecordKey>, count: Count, r: Record)
    ensures |Asking(st, ServedKeys(view, remote, all, keys, count), r)| ==
            |AskingServed(st, view, remote, all, keys, count, r)|
    decreases |keys|
  {
    hide Served, StoreOf, Has;
    if keys == [] {
      assert Asking(st, [], r) == {} && AskingServed(st, view, remote, all, keys, count, r) == {};
    } else {
      var n := |keys| - 1;
      var served := ServedKeys(view, remote, all, keys[..n], count);
      assert keys == keys[..n] + [keys[n]];
      ServedAsOftenAsAsked(st, view, remote, all, keys[..n], count, r);
      ServedKeysNext(view, remote, all, keys[..n], keys[n], count);
      AskingNext(st, served, keys[n], r);
      AskingServedNext(st, view, remote, all, keys[..n], keys[n], count, r);
      assert served + [] == served;
    }
  }

  lemma {:induction false} KeysOfServed(view: map<nat, Part>, remote: Remote, all: seq<RecordKey>, keys: seq<RecordKey>,
                                        count: Count, p: nat)
    ensures KeysOf(ServedKeys(view, remote, all, keys, count), p, count) ==
            if Served(view, remote, all, count, p) then KeysOf(keys, p, count) else []
    decreases keys
  {
    hide StoreOf, Served;
    if keys != [] {
      KeysOfServed(view, remote, all, keys[1..], count, p);
      var served := ServedKeys(view, remote, all, keys, count);
      if Served(view, remote, all, count, StoreOf(keys[0].pk, count)) {
        assert served[1..] == ServedKeys(view, remote, all, keys[1..], count);
      } else {
        assert served == ServedKeys(view, remote, all, keys[1..], count);
      }
    }
  }

  /** Every partition that serves the request looks its keys up in this store. */
  ghost predicate Reads(st: Store, view: map<nat, Part>, remote: Remote, keys: seq<RecordKey>, count: Count) {
    forall p :: KeysOf(keys, p, count) != [] && Served(view, remote, keys, count, p) ==>
      multiset(AnswerOf(view, remote, keys, count, p)) == multiset(Lookups(st, KeysOf(keys, p, count)))
  }

  lemma {:induction false} CollectedIsFlat(view: map<nat, Part>, remote: Remote, keys: seq<RecordKey>, count: Count,
                                           order: seq<nat>)
    ensures Collected(view, remote, keys, count, order) ==
            Flatten((p: nat) => AnswerOf(view, remote, keys, count, p), order)
    decreases order
  {
    if order != [] {
      CollectedIsFlat(view, remote, keys, count, order[1..]);
    }
  }

  /** What a read returns is, as a multiset and with repetitions, what looking up the served keys one by one in the
      one store returns. */
  lemma GetIsLookup(st: Store, view: map<nat, Part>, remote: Remote, keys: seq<RecordKey>, count: Count,
                    order: seq<nat>)
    requires Covers(order, keys, count) && Reads(st, view, remote, keys, count)
    ensures multiset(Collected(view, remote, keys, count, order)) ==
            multiset(Lookups(st, ServedKeys(view, remote, keys, keys, count)))
  {
    hide KeysOf, Lookups, ServedKeys, AnswerOf, Served, Collected, Flatten;
    var answers := (p: nat) => AnswerOf(view, remote, keys, count, p);
    var served := ServedKeys(view, remote, keys, keys, count);
    CollectedIsFlat(view, remote, keys, count, order);
    NothingLooksUpNothing(st);
    forall p
      ensures KeysOf(served, p, count) == if Served(view, remote, keys, count, p) then KeysOf(keys, p, count) else []
    {
      KeysOfServed(view, remote, keys, keys, count, p);
    }
    forall p | p in order
      ensures multiset(answers(p)) == multiset(Lookups(st, KeysOf(served, p, count)))
    {
      if !Served(view, remote, keys, count, p) {
        UnservedIsEmpty(view, remote, keys, count, p);
      }
    }
    RightTogether(st, served, count, answers, order);
  }

  lemma UnservedIsEmpty(view: map<nat, Part>, remote: Remote, keys: seq<RecordKey>, count: Count, p: nat)
    requires !Served(view, remote, keys, count, p)
    ensures AnswerOf(view, remote, keys, count, p) == []
  {
  }

  lemma {:induction false} AllServed(view: map<nat, Part>, remote: Remote, all: seq<RecordKey>, keys: seq<RecordKey>,
                                     count: Count)
    requires forall i :: 0 <= i < |keys| ==> Served(view, remote, all, count, StoreOf(keys[i].pk, count))
    ensures ServedKeys(view, remote, all, keys, count) == keys
    decreases keys
  {
    hide Served, StoreOf;
    if keys != [] {
      assert forall i :: 0 <= i < |keys[1..]| ==> keys[1..][i] == keys[i + 1];
      AllServed(view, remote, all, keys[1..], count);
    }
  }

  // The served keys are read from the one map that all the logs together stand for.

  lemma {:induction false} LookupsSame(a: Store, b: Store, keys: seq<RecordKey>)
    requires forall i :: 0 <= i < |keys| ==> CellAt(a, keys[i].Storage()) == CellAt(b, keys[i].Storage())
    ensures Lookups(a, keys) == Lookups(b, keys)
    decreases keys
  {
    if keys != [] {
      assert forall i :: 0 <= i < |keys[1..]| ==> keys[1..][i] == keys[i + 1];
      LookupsSame(a, b, keys[1..]);
      assert CellAt(a, keys[0].Storage()) == CellAt(b, keys[0].Storage());
    }
  }

  lemma {:induction false} KeysOfMembers(keys: seq<RecordKey>, p: nat, count: Count)
    ensures forall i :: 0 <= i < |KeysOf(keys, p, count)| ==>
            KeysOf(keys, p, count)[i] in keys && StoreOf(KeysOf(keys, p, count)[i].pk, count) == p
    decreases keys
  {
    hide StoreOf;
    if keys != [] {
      KeysOfMembers(keys[1..], p, count);
      assert keys == [keys[0]] + keys[1..];
    }
  }

  /** What partition p stands for when the logs are those of ms. */
  function StandsFor(ms: seq<Mutation>, p: nat, count: Count): Store {
    Fold(map[], Routed(ms, p, count))
  }

  lemma PartitionReadsOneMap(pks: set<Bytes>, ms: seq<Mutation>, keys: seq<RecordKey>, count: Count, p: nat)
    requires TWO_31 % count == 0 && NulFreeSet(pks) && Over(ms, pks)
    requires forall i :: 0 <= i < |keys| ==> keys[i].pk in pks
    ensures Lookups(StandsFor(ms, p, count), KeysOf(keys, p, count)) == Lookups(Fold(map[], ms), KeysOf(keys, p, count))
  {
    hide StoreOf, Fold, Routed, KeysOf;
    KeysOfMembers(keys, p, count);
    forall i | 0 <= i < |KeysOf(keys, p, count)|
      ensures CellAt(StandsFor(ms, p, count), KeysOf(keys, p, count)[i].Storage()) ==
              CellAt(Fold(map[], ms), KeysOf(keys, p, count)[i].Storage())
    {
      var key := KeysOf(keys, p, count)[i];
      ReadsAgree(pks, ms, count, key.pk, key.sk);
    }
    LookupsSame(StandsFor(ms, p, count), Fold(map[], ms), KeysOf(keys, p, count));
  }

  /** The partitions open here have caught up with their logs, and other nodes answer from partitions that have. */
  ghost predicate CaughtUp(ms: seq<Mutation>, view: map<nat, Part>, remote: Remote, keys: seq<RecordKey>,
                           count: Count) {
    forall p :: KeysOf(keys, p, count) != [] && Served(view, remote, keys, count, p) ==>
      multiset(AnswerOf(view, remote, keys, count, p)) ==
        multiset(Lookups(StandsFor(ms, p, count), KeysOf(keys, p, count)))
  }

  lemma GetReadsCaughtUp(pks: set<Bytes>, ms: seq<Mutation>, view: map<nat, Part>, remote: Remote, keys: seq<RecordKey>,
                         count: Count, order: seq<nat>)
    requires TWO_31 % count == 0 && NulFreeSet(pks) && Over(ms, pks)
    requires forall i :: 0 <= i < |keys| ==> keys[i].pk in pks
    requires Covers(order, keys, count) && CaughtUp(ms, view, remote, keys, count)
    ensures multiset(Collected(view, remote, keys, count, order))
         == multiset(Lookups(Fold(map[], ms), ServedKeys(view, remote, keys, keys, count)))
    ensures (forall i :: 0 <= i < |keys| ==> Served(view, remote, keys, count, StoreOf(keys[i].pk, count))) ==>
              multiset(Collected(view, remote, keys, count, order)) == multiset(Lookups(Fold(map[], ms), keys))
  {
    hide StoreOf, Served, KeysOf, AnswerOf, StandsFor, Lookups, Fold, Collected, ServedKeys;
    forall p | KeysOf(keys, p, count) != [] && Served(view, remote, keys, count, p)
      ensures multiset(AnswerOf(view, remote, keys, count, p)) ==
              multiset(Lookups(Fold(map[], ms), KeysOf(keys, p, count)))
    {
      PartitionReadsOneMap(pks, ms, keys, count, p);
    }
    GetIsLookup(Fold(map[], ms), view, remote, keys, count, order);
    if forall i :: 0 <= i < |keys| ==> Served(view, remote, keys, count, StoreOf(keys[i].pk, count)) {
      AllServed(view, remote, keys, keys, count);
    }
  }

  // Other nodes answer with the same handler.

  /** The records are what a node answers that has partition p open, caught up with its log. */
  ghost predicate NodeAnswers(rs: seq<Record>, ms: seq<Mutation>, keys: seq<RecordKey>, p: nat, count: Count) {
    exists view: map<nat, Part>, remote: Remote, order: seq<nat> ::
      && p in view && view[p].disk.store == StandsFor(ms, p, count)
      && Covers(order, keys, count) && rs == Collected(view, remote, keys, count, order)
  }

  lemma {:induction false} KeysOfKeysOf(keys: seq<RecordKey>, p: nat, q: nat, count: Count)
    ensures KeysOf(KeysOf(keys, p, count), q, count) == if q == p then KeysOf(keys, p, count) else []
    decreases keys
  {
    hide StoreOf;
    if keys != [] {
      KeysOfKeysOf(keys[1..], p, q, count);
      if StoreOf(keys[0].pk, count) == p {
        assert KeysOf(keys, p, count)[1..] == KeysOf(keys[1..], p, count);
      } else {
        assert KeysOf(keys, p, count) == KeysOf(keys[1..], p, count);
      }
    }
  }

  lemma Repeats(order: seq<nat>, p: nat)
    requires forall i :: 0 <= i < |order| ==> order[i] == p
    ensures |order| > 1 ==> !NoDuplicates(order)
  {
    if |order| > 1 {
      assert order[0] == order[1];
    }
  }

  lemma OnlyOne(order: seq<nat>, p: nat)
    requires NoDuplicates(order) && forall q :: q in order <==> q == p
    ensures order == [p]
  {
    assert p in order;
    assert forall i :: 0 <= i < |order| ==> order[i] in order;
    assert p in order && order[0] == p;
    Repeats(order, p);
  }

  /** Asked for keys of one partition that it has open and caught up, a node answers with their lookup. */
  lemma OneHop(rs: seq<Record>, ms: seq<Mutation>, keys: seq<RecordKey>, p: nat, count: Count)
    requires KeysOf(keys, p, count) != [] && NodeAnswers(rs, ms, KeysOf(keys, p, count), p, count)
    ensures rs == Lookups(StandsFor(ms, p, count), KeysOf(keys, p, count))
  {
    hide KeysOf, StandsFor, Lookups, NoDuplicates;
    var ks := KeysOf(keys, p, count);
    var view: map<nat, Part>, remote: Remote, order: seq<nat> :|
      && p in view && view[p].disk.store == StandsFor(ms, p, count)
      && Covers(order, ks, count) && rs == Collected(view, remote, ks, count, order);
    forall q
      ensures KeysOf(ks, q, count) == if q == p then ks else []
    {
      KeysOfKeysOf(keys, p, q, count);
    }
    OnlyOne(order, p);
    assert Collected(view, remote, ks, count, [p]) ==
      AnswerOf(view, remote, ks, count, p) + Collected(view, remote, ks, count, []);
  }

  /** Every partition that is asked about is caught up where it is open: here, or on the node that answers. */
  ghost predicate NodesCaughtUp(ms: seq<Mutation>, view: map<nat, Part>, remote: Remote, keys: seq<RecordKey>,
                                count: Count) {
    forall p :: KeysOf(keys, p, count) != [] ==> NodeCaughtUp(ms, view, remote, keys, count, p)
  }

  ghost predicate NodeCaughtUp(ms: seq<Mutation>, view: map<nat, Part>, remote: Remote, keys: seq<RecordKey>,
                               count: Count, p: nat) {
    if p in view then view[p].disk.store == StandsFor(ms, p, count)
    else
      var reply := remote(p, KeysOf(keys, p, count));
      reply.Answered? ==> NodeAnswers(reply.records, ms, KeysOf(keys, p, count), p, count)
  }

  lemma NodesAreCaughtUp(ms: seq<Mutation>, view: map<nat, Part>, remote: Remote, keys: seq<RecordKey>, count: Count)
    requires NodesCaughtUp(ms, view, remote, keys, count)
    ensures CaughtUp(ms, view, remote, keys, count)
  {
    hide KeysOf, StandsFor, Lookups, NodeAnswers;
    forall p | KeysOf(keys, p, count) != [] && Served(view, remote, keys, count, p)
      ensures AnswerOf(view, remote, keys, count, p) == Lookups(StandsFor(ms, p, count), KeysOf(keys, p, count))
    {
      assert NodeCaughtUp(ms, view, remote, keys, count, p);
      if p !in view {
        OneHop(remote(p, KeysOf(keys, p, count)).records, ms, keys, p, count);
      }
    }
  }

  /** A read across partitions and nodes returns the requested records of one unsharded map: each as often as there
      are requested positions, of the partitions that are served, whose key is stored as that record. */
  lemma GetReadsOneMap(pks: set<Bytes>, ms: seq<Mutation>, view: map<nat, Part>, remote: Remote, keys: seq<RecordKey>,
                       count: Count, order: seq<nat>, r: Record)
    requires TWO_31 % count == 0 && NulFreeSet(pks) && Over(ms, pks)
    requires forall i :: 0 <= i < |keys| ==> keys[i].pk in pks
    requires Covers(order, keys, count) && NodesCaughtUp(ms, view, remote, keys, count)
    ensures multiset(Collected(view, remote, keys, count, order))[r] ==
            |AskingServed(Fold(map[], ms), view, remote, keys, keys, count, r)|
    ensures (forall i :: 0 <= i < |keys| ==> Served(view, remote, keys, count, StoreOf(keys[i].pk, count))) ==>
              multiset(Collected(view, remote, keys, count, order))[r] == |Asking(Fold(map[], ms), keys, r)|
  {
    hide Served, StoreOf, Has, Collected, Asking, AskingServed, ServedKeys, Fold, Lookups;
    NodesAreCaughtUp(ms, view, remote, keys, count);
    GetReadsCaughtUp(pks, ms, view, remote, keys, count, order);
    ReadAsOftenAsAsked(Fold(map[], ms), ServedKeys(view, remote, keys, keys, count), r);
    ServedAsOftenAsAsked(Fold(map[], ms), view, remote, keys, keys, count, r);
    ReadAsOftenAsAsked(Fold(map[], ms), keys, r);
  }
}
