/** The polls of the log consumer are an interleaving of workers, one per partition. */
module Polling {
  import opened ByteStrings
  import opened StorageKeys
  import opened Records
  import opened PartitionState
  import opened Batches
  import opened Consumers
  import opened Sharding

  type Fetches = map<nat, seq<Fetched>>

  /** The open partitions hold what the workers hold. */
  ghost predicate Matches(view: map<nat, Part>, workers: map<nat, Worker>) {
    view.Keys == workers.Keys && forall p :: p in view ==> view[p].disk.store == workers[p].store
  }

  /** The fetched messages are the next ones of the log behind a worker's position. */
  ghost predicate IsNext(log: seq<Mutation>, position: nat, records: seq<Fetched>) {
    position + |records| <= |log| && forall i :: 0 <= i < |records| ==> records[i].m == log[position + i]
  }

  ghost predicate AreNext(logs: map<nat, seq<Mutation>>, workers: map<nat, Worker>, fetches: Fetches) {
    forall p :: p in fetches ==> p in workers && p in logs && IsNext(logs[p], workers[p].position, fetches[p])
  }

  ghost predicate AllSucceed(view: map<nat, Part>, fetches: Fetches) {
    forall p :: p in fetches ==> p in view && BatchSucceeds(view[p], fetches[p])
  }

  function Repeat(p: nat, n: nat): seq<nat> {
    if n == 0 then [] else [p] + Repeat(p, n - 1)
  }

  lemma {:induction false} WorkConcat(logs: map<nat, seq<Mutation>>, workers: map<nat, Worker>, a: seq<nat>,
                                      b: seq<nat>)
    ensures Work(logs, workers, a + b) == Work(logs, Work(logs, workers, a), b)
    decreases a
  {
    hide Apply;
    if a == [] {
      assert a + b == b;
    } else {
      assert (a + b)[0] == a[0] && (a + b)[1..] == a[1..] + b;
      var p := a[0];
      if p in workers && p in logs && workers[p].position < |logs[p]| {
        var w := Worker(Apply(workers[p].store, logs[p][workers[p].position]), workers[p].position + 1);
        WorkConcat(logs, workers[p := w], a[1..], b);
      } else {
        WorkConcat(logs, workers, a[1..], b);
      }
    }
  }

  lemma HandleStores(part: Part, m: Mutation, offset: int)
    requires OutcomeOf(part.disk.store, m) != Failed
    ensures Handle(part, m, offset).disk.store == Apply(part.disk.store, m)
  {
    if OutcomeOf(part.disk.store, m) == Unrecorded {
      UnappliedIsNoOp(part.disk.store, m);
    }
  }

  /** A batch that succeeds is that many turns of its worker. */
  lemma {:induction false} BatchIsWork(logs: map<nat, seq<Mutation>>, workers: map<nat, Worker>, p: nat, part: Part,
                                       records: seq<Fetched>)
    requires p in workers && p in logs && part.disk.store == workers[p].store
    requires IsNext(logs[p], workers[p].position, records) && BatchSucceeds(part, records)
    ensures Work(logs, workers, Repeat(p, |records|)) ==
            workers[p := Worker(Batch(part, records).disk.store, workers[p].position + |records|)]
    decreases records
  {
    hide Apply, Handle, OutcomeOf;
    if records == [] {
      assert workers[p := workers[p]] == workers;
    } else {
      var next := Handle(part, records[0].m, records[0].offset);
      HandleStores(part, records[0].m, records[0].offset);
      var w := Worker(next.disk.store, workers[p].position + 1);
      assert Repeat(p, |records|)[0] == p && Repeat(p, |records|)[1..] == Repeat(p, |records| - 1);
      assert records[0].m == logs[p][workers[p].position];
      assert IsNext(logs[p], workers[p].position + 1, records[1..]) by {
        assert forall i :: 0 <= i < |records| - 1 ==> records[1..][i] == records[i + 1];
      }
      BatchIsWork(logs, workers[p := w], p, next, records[1..]);
      assert workers[p := w][p := Worker(Batch(next, records[1..]).disk.store, workers[p].position + |records|)]
          == workers[p := Worker(Batch(next, records[1..]).disk.store, workers[p].position + |records|)];
    }
  }

  /** The workers after the partitions in `done` have gone through their batches. */
  function PolledWorkers(view: map<nat, Part>, workers: map<nat, Worker>, fetches: Fetches, done: set<nat>)
    : map<nat, Worker>
    requires view.Keys == workers.Keys && done <= fetches.Keys
  {
    map p | p in workers ::
      if p in done then Worker(Batch(view[p], fetches[p]).disk.store, workers[p].position + |fetches[p]|)
      else workers[p]
  }

  lemma {:induction false} PollIsWork(logs: map<nat, seq<Mutation>>, view: map<nat, Part>, workers: map<nat, Worker>,
                                      fetches: Fetches, done: set<nat>) returns (schedule: seq<nat>)
    requires Matches(view, workers) && AreNext(logs, workers, fetches) && AllSucceed(view, fetches) &&
             done <= fetches.Keys
    ensures Work(logs, workers, schedule) == PolledWorkers(view, workers, fetches, done)
    decreases done
  {
    hide Batch, BatchSucceeds, IsNext;
    if done == {} {
      schedule := [];
      assert PolledWorkers(view, workers, fetches, done) == workers;
    } else {
      var p :| p in done;
      var rest := done - {p};
      schedule := PollIsWork(logs, view, workers, fetches, rest);
      var before := PolledWorkers(view, workers, fetches, rest);
      assert before[p] == workers[p];
      BatchIsWork(logs, before, p, view[p], fetches[p]);
      WorkConcat(logs, workers, schedule, Repeat(p, |fetches[p]|));
      schedule := schedule + Repeat(p, |fetches[p]|);
      assert before[p := Worker(Batch(view[p], fetches[p]).disk.store, workers[p].position + |fetches[p]|)]
          == PolledWorkers(view, workers, fetches, done);
    }
  }

  function AfterPolls(view: map<nat, Part>, polls: seq<Fetches>): map<nat, Part>
    decreases polls
  {
    if polls == [] then view else AfterPolls(Polled(view, polls[0], polls[0].Keys), polls[1..])
  }

  /** Every poll fetches what comes next in the logs, and all of its batches succeed. */
  ghost predicate PollsSucceed(logs: map<nat, seq<Mutation>>, view: map<nat, Part>, workers: map<nat, Worker>,
                               polls: seq<Fetches>)
    requires view.Keys == workers.Keys
    decreases polls
  {
    polls != [] ==>
      && AreNext(logs, workers, polls[0]) && AllSucceed(view, polls[0])
      && PollsSucceed(logs, Polled(view, polls[0], polls[0].Keys),
          PolledWorkers(view, workers, polls[0], polls[0].Keys), polls[1..])
  }

  /** How many messages of a partition the polls fetch. */
  function FetchedOf(polls: seq<Fetches>, p: nat): nat
    decreases polls
  {
    if polls == [] then 0 else (if p in polls[0] then |polls[0][p]| else 0) + FetchedOf(polls[1..], p)
  }

  /** A sequence of polls that succeed is some interleaving of the workers. */
  lemma {:induction false} PollsAreWork(logs: map<nat, seq<Mutation>>, view: map<nat, Part>, workers: map<nat, Worker>,
                                        polls: seq<Fetches>) returns (schedule: seq<nat>)
    requires Matches(view, workers) && PollsSucceed(logs, view, workers, polls)
    ensures Matches(AfterPolls(view, polls), Work(logs, workers, schedule))
    ensures forall p :: p in workers ==>
              && p in Work(logs, workers, schedule)
              && Work(logs, workers, schedule)[p].position == workers[p].position + FetchedOf(polls, p)
    decreases polls
  {
    hide Batch, AreNext, AllSucceed;
    if polls == [] {
      schedule := [];
    } else {
      var fetches := polls[0];
      var front := PollIsWork(logs, view, workers, fetches, fetches.Keys);
      var view', workers' := Polled(view, fetches, fetches.Keys), PolledWorkers(view, workers, fetches, fetches.Keys);
      assert Matches(view', workers');
      var back := PollsAreWork(logs, view', workers', polls[1..]);
      WorkConcat(logs, workers, front, back);
      schedule := front + back;
    }
  }

  /** From empty partitions, polls that succeed leave each partition with the fold of the messages fetched for it, as
      some interleaving of the workers does. */
  lemma PollsFold(logs: map<nat, seq<Mutation>>, view: map<nat, Part>, workers: map<nat, Worker>, polls: seq<Fetches>)
    returns (schedule: seq<nat>)
    requires Matches(view, workers) && workers.Keys == logs.Keys && Start(workers)
    requires PollsSucceed(logs, view, workers, polls)
    ensures Matches(AfterPolls(view, polls), Work(logs, workers, schedule))
    ensures forall p :: p in logs ==>
              && p in AfterPolls(view, polls) && p in Work(logs, workers, schedule)
              && Work(logs, workers, schedule)[p].position == FetchedOf(polls, p) <= |logs[p]|
              && AfterPolls(view, polls)[p].disk.store == Fold(map[], logs[p][..FetchedOf(polls, p)])
  {
    hide PollsSucceed, AfterPolls, Work;
    schedule := PollsAreWork(logs, view, workers, polls);
    WorkKeepsUpToDate(logs, workers, schedule);
    var done := Work(logs, workers, schedule);
    forall p | p in logs
      ensures p in done && done[p].position == FetchedOf(polls, p) <= |logs[p]|
      ensures AfterPolls(view, polls)[p].disk.store == Fold(map[], logs[p][..FetchedOf(polls, p)])
    {
      assert IsUpToDate(logs[p], done[p]);
    }
  }

  /** When such polls have fetched all of the logs, a record is in the store of its own partition as the one map has
      it, and in no other. */
  lemma PollsBuildOneMap(pks: set<Bytes>, ms: seq<Mutation>, count: Count, logs: map<nat, seq<Mutation>>,
                         view: map<nat, Part>, workers: map<nat, Worker>, polls: seq<Fetches>,
                         pk: Bytes, sk: Bytes, p: nat)
    requires Separate(pks, count) && Over(ms, pks) && pk in pks && AreLogsOf(logs, ms, count)
    requires Matches(view, workers) && workers.Keys == logs.Keys && Start(workers)
    requires PollsSucceed(logs, view, workers, polls) && forall q :: q in logs ==> FetchedOf(polls, q) == |logs[q]|
    ensures var k := FormatRecordKey(pk, sk);
            p < count ==>
              && p in AfterPolls(view, polls)
              && CellAt(AfterPolls(view, polls)[p].disk.store, k) ==
                 if p == LogOf(pk, count) then CellAt(Fold(map[], ms), k) else None
  {
    hide PollsSucceed, AfterPolls, Work, Separate, LogOf, FormatRecordKey;
    var schedule := PollsFold(logs, view, workers, polls);
    assert Finished(logs, Work(logs, workers, schedule));
    ShardedIsOneMap(pks, ms, count, logs, workers, schedule, pk, sk, p);
  }
}
