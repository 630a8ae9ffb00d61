/** Consuming a log in fetched batches, where a failing mutation drops the rest of its batch. */
module Batches {
  import opened Records
  import opened StorageKeys
  import opened PartitionState
  import opened Protocol

  /** A message of the log. One that does not decode fails like an unknown operation. */
  datatype Fetched = Fetched(m: Mutation, offset: int64)

  /** One worker on its fetched messages: it stops at the first mutation that fails. */
  function Batch(p: Part, records: seq<Fetched>): Part
    decreases records
  {
    if records == [] || OutcomeOf(p.disk.store, records[0].m) == Failed then p
    else Batch(Handle(p, records[0].m, records[0].offset), records[1..])
  }

  predicate BatchSucceeds(p: Part, records: seq<Fetched>)
    decreases records
  {
    records == [] ||
    (OutcomeOf(p.disk.store, records[0].m) != Failed &&
        BatchSucceeds(Handle(p, records[0].m, records[0].offset), records[1..]))
  }

  /** The records that one batch leaves. */
  function Drain(st: Store, batch: seq<Mutation>): Store
    decreases batch
  {
    if batch == [] || OutcomeOf(st, batch[0]) == Failed then st else Drain(Apply(st, batch[0]), batch[1..])
  }

  function DrainAll(st: Store, batches: seq<seq<Mutation>>): Store
    decreases batches
  {
    if batches == [] then st else DrainAll(Drain(st, batches[0]), batches[1..])
  }

  function Mutations(records: seq<Fetched>): (ms: seq<Mutation>)
    ensures |ms| == |records|
  {
    seq(|records|, i requires 0 <= i < |records| => records[i].m)
  }

  lemma {:induction false} BatchDrains(p: Part, records: seq<Fetched>)
    ensures Batch(p, records).disk.store == Drain(p.disk.store, Mutations(records))
    decreases records
  {
    if records != [] && OutcomeOf(p.disk.store, records[0].m) != Failed {
      assert Mutations(records)[1..] == Mutations(records[1..]);
      var next := Handle(p, records[0].m, records[0].offset);
      if OutcomeOf(p.disk.store, records[0].m) == Unrecorded {
        UnappliedIsNoOp(p.disk.store, records[0].m);
      }
      BatchDrains(next, records[1..]);
    }
  }

  function Joined(batches: seq<seq<Mutation>>): seq<Mutation> {
    if batches == [] then [] else batches[0] + Joined(batches[1..])
  }

  /** However the log, or any beginning of it, is cut into batches, consuming them gives what it stands for. */
  ghost predicate BatchingIsHarmless(st: Store, log: seq<Mutation>) {
    forall batches :: Joined(batches) <= log ==> DrainAll(st, batches) == Fold(st, Joined(batches))
  }

  /** No entry after a failing one would change anything on the records that the failing one met. */
  ghost predicate FailuresAreLast(st: Store, log: seq<Mutation>) {
    forall i, j :: 0 <= i < j < |log| && FailsAt(st, log, i) ==> Apply(Fold(st, log[..i]), log[j]) == Fold(st, log[..i])
  }

  predicate FailsAt(st: Store, log: seq<Mutation>, i: nat)
    requires i < |log|
  {
    OutcomeOf(Fold(st, log[..i]), log[i]) == Failed
  }

  lemma FailuresAreLastAfter(st: Store, log: seq<Mutation>, n: nat)
    requires FailuresAreLast(st, log) && n <= |log|
    ensures FailuresAreLast(Fold(st, log[..n]), log[n..])
  {
    var st', rest := Fold(st, log[..n]), log[n..];
    forall i, j | 0 <= i < j < |rest| && FailsAt(st', rest, i)
      ensures Apply(Fold(st', rest[..i]), rest[j]) == Fold(st', rest[..i])
    {
      assert log[..n + i] == log[..n] + rest[..i];
      FoldConcat(st, log[..n], rest[..i]);
      assert FailsAt(st, log, n + i);
    }
  }

  /** Entries that each change nothing change nothing together. */
  lemma {:induction false} IdleFold(st: Store, log: seq<Mutation>)
    requires forall j :: 0 <= j < |log| ==> Apply(st, log[j]) == st
    ensures Fold(st, log) == st
    decreases log
  {
    if log != [] {
      IdleFold(st, log[1..]);
    }
  }

  lemma {:induction false} DrainIsFold(st: Store, log: seq<Mutation>, n: nat)
    requires FailuresAreLast(st, log) && n <= |log|
    ensures Drain(st, log[..n]) == Fold(st, log[..n])
    decreases n
  {
    if n > 0 {
      assert log[..0] == [];
      if OutcomeOf(st, log[0]) == Failed {
        assert FailsAt(st, log, 0);
        UnappliedIsNoOp(st, log[0]);
        IdleFold(st, log[..n]);
      } else {
        FailuresAreLastAfter(st, log, 1);
        assert log[..1] == [log[0]] && Fold(st, log[..1]) == Apply(st, log[0]);
        DrainIsFold(Apply(st, log[0]), log[1..], n - 1);
        assert log[..n][1..] == log[1..][..n - 1];
      }
    }
  }

  lemma {:induction false} DrainAllIsFold(st: Store, log: seq<Mutation>, batches: seq<seq<Mutation>>)
    requires FailuresAreLast(st, log) && Joined(batches) <= log
    ensures DrainAll(st, batches) == Fold(st, Joined(batches))
    decreases batches
  {
    if batches != [] {
      var n := |batches[0]|;
      assert batches[0] == log[..n] && Joined(batches[1..]) <= log[n..];
      DrainIsFold(st, log, n);
      FailuresAreLastAfter(st, log, n);
      DrainAllIsFold(Fold(st, log[..n]), log[n..], batches[1..]);
      FoldConcat(st, batches[0], Joined(batches[1..]));
    }
  }

  function Singles(log: seq<Mutation>): seq<seq<Mutation>> {
    if log == [] then [] else [[log[0]]] + Singles(log[1..])
  }

  lemma {:induction false} SinglesJoin(log: seq<Mutation>, last: seq<Mutation>)
    ensures Joined(Singles(log) + [last]) == log + last
  {
    if log == [] {
      assert Singles(log) + [last] == [last];
      assert Joined([last]) == last + Joined([]);
    } else {
      assert (Singles(log) + [last])[1..] == Singles(log[1..]) + [last];
      SinglesJoin(log[1..], last);
    }
  }

  /** Batches of one entry each consume a log as its fold does. */
  lemma {:induction false} SinglesDrain(st: Store, log: seq<Mutation>, last: seq<Mutation>)
    ensures DrainAll(st, Singles(log) + [last]) == Drain(Fold(st, log), last)
    decreases log
  {
    if log == [] {
      assert Singles(log) + [last] == [last];
    } else {
      if OutcomeOf(st, log[0]) == Failed {
        UnappliedIsNoOp(st, log[0]);
      }
      assert (Singles(log) + [last])[1..] == Singles(log[1..]) + [last];
      assert Drain(st, [log[0]]) == Apply(st, log[0]);
      SinglesDrain(Apply(st, log[0]), log[1..], last);
    }
  }

  lemma FailureStops(st: Store, log: seq<Mutation>, i: nat, n: nat)
    requires BatchingIsHarmless(st, log) && i < n <= |log| && FailsAt(st, log, i)
    ensures Fold(Fold(st, log[..i]), log[i..n]) == Fold(st, log[..i])
  {
    SinglesJoin(log[..i], log[i..n]);
    SinglesDrain(st, log[..i], log[i..n]);
    assert log[..i] + log[i..n] == log[..n];
    FoldConcat(st, log[..i], log[i..n]);
  }

  /** Cutting the log into batches is harmless exactly when every failure comes last: a failing mutation makes
      the rest of its batch be dropped for good, and how long that rest is depends on the fetch. */
  lemma BatchingIff(st: Store, log: seq<Mutation>)
    ensures BatchingIsHarmless(st, log) <==> FailuresAreLast(st, log)
  {
    if FailuresAreLast(st, log) {
      forall batches | Joined(batches) <= log
        ensures DrainAll(st, batches) == Fold(st, Joined(batches))
      {
        DrainAllIsFold(st, log, batches);
      }
    }
    if BatchingIsHarmless(st, log) {
      forall i, j | 0 <= i < j < |log| && FailsAt(st, log, i)
        ensures Apply(Fold(st, log[..i]), log[j]) == Fold(st, log[..i])
      {
        var met := Fold(st, log[..i]);
        FailureStops(st, log, i, j);
        FailureStops(st, log, i, j + 1);
        FoldExtend(met, log, i, j);
      }
    }
  }

  // A worker's batch as steps of the protocol.

  function Entries(log: seq<Mutation>, from: nat, to: nat): seq<Fetched>
    requires from <= to <= |log| <= TWO_63
  {
    seq(to - from, i requires 0 <= i < to - from => Fetched(log[from + i], from + i))
  }

  function Consumes(n: nat, count: nat): seq<Step> {
    if count == 0 then [] else [Consume(n)] + Consumes(n, count - 1)
  }

  /** A batch that succeeds is a run of single steps, each consuming the entry at the cursor. */
  lemma {:induction false} BatchIsConsumes(w: World, n: nat, r: Replica, count: nat)
    requires |w.log| <= TWO_63 && r == ReplicaOf(w, n) && r.Open? && 0 <= r.cursor && r.cursor + count <= |w.log|
    requires BatchSucceeds(r.part, Entries(w.log, r.cursor, r.cursor + count))
    ensures Possible(w, Consumes(n, count), Quiet) && Possible(w, Consumes(n, count), Unguarded)
    ensures var r' := ReplicaOf(After(w, Consumes(n, count)), n);
            r'.Open? && r'.cursor == r.cursor + count &&
              r'.part == Batch(r.part, Entries(w.log, r.cursor, r.cursor + count))
    decreases count
  {
    if count > 0 {
      var records := Entries(w.log, r.cursor, r.cursor + count);
      assert records[0] == Fetched(w.log[r.cursor], r.cursor);
      assert records[1..] == Entries(w.log, r.cursor + 1, r.cursor + count);
      assert Consumes(n, count)[1..] == Consumes(n, count - 1);
      BatchIsConsumes(Do(w, Consume(n)), n, ConsumeOne(w.log, r), count - 1);
    }
  }
}
