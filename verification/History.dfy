/** Where the fields of a stored record come from. */
module Histories {
  import opened ByteStrings
  import opened Records

  /** Entry i of the log is a mutation of key k, and it was applied when the log reached it. */
  ghost predicate TookEffect(log: seq<Mutation>, i: int, k: Bytes) {
    0 <= i < |log| && log[i].Key() == k && OutcomeOf(Fold(map[], log[..i]), log[i]) == Applied
  }

  ghost predicate Wrote(log: seq<Mutation>, i: int, k: Bytes) {
    TookEffect(log, i, k) && log[i].op == Put
  }

  ghost predicate Erased(log: seq<Mutation>, i: int, k: Bytes) {
    TookEffect(log, i, k) && log[i].op == Delete
  }

  ghost predicate ErasedBetween(log: seq<Mutation>, i: int, j: int, k: Bytes) {
    exists d :: i < d < j && Erased(log, d, k)
  }

  /** Entry `last` wrote the data and the update time of r, and entry `first` its creation time: `last` is the
      last put that took effect, `first` the first put that took effect after the last delete that did. */
  ghost predicate Provenance(log: seq<Mutation>, k: Bytes, r: StoredRecord, first: int, last: int) {
    && first <= last
    && Wrote(log, first, k) && log[first].tsMs == r.createdAt
    && Wrote(log, last, k) && log[last].tsMs == r.updatedAt && log[last].data == r.data
    && (forall i :: last < i ==> !Wrote(log, i, k))
    && (forall i :: first < i ==> !Erased(log, i, k))
    && (forall i :: i < first && Wrote(log, i, k) ==> ErasedBetween(log, i, first, k))
  }

  ghost predicate AllErased(log: seq<Mutation>, k: Bytes) {
    forall i :: Wrote(log, i, k) ==> ErasedBetween(log, i, |log|, k)
  }

  lemma EffectIsStable(log: seq<Mutation>, m: Mutation, k: Bytes)
    ensures forall i :: i < |log| ==> TookEffect(log + [m], i, k) == TookEffect(log, i, k)
    ensures TookEffect(log + [m], |log|, k) <==> m.Key() == k && OutcomeOf(Fold(map[], log), m) == Applied
  {
    forall i | 0 <= i < |log|
      ensures TookEffect(log + [m], i, k) == TookEffect(log, i, k)
    {
      assert (log + [m])[..i] == log[..i];
    }
    assert (log + [m])[..|log|] == log;
  }

  /** Extending a log keeps every verdict about its entries. */
  lemma ErasedBetweenIsStable(log: seq<Mutation>, m: Mutation, k: Bytes, i: int, j: int)
    requires ErasedBetween(log, i, j, k) && j <= |log|
    ensures ErasedBetween(log + [m], i, j, k)
  {
    EffectIsStable(log, m, k);
    var d :| i < d < j && Erased(log, d, k);
    assert Erased(log + [m], d, k);
  }

  lemma {:induction false} AllErasedWhenAbsent(log: seq<Mutation>, k: Bytes)
    requires CellAt(Fold(map[], log), k) == None
    ensures AllErased(log, k)
    decreases |log|, 0
  {
    if log != [] {
      var init, m := log[..|log| - 1], log[|log| - 1];
      assert log == init + [m];
      FoldConcat(map[], init, [m]);
      EffectIsStable(init, m, k);
      if Erased(log, |log| - 1, k) {
        forall i | Wrote(log, i, k)
          ensures ErasedBetween(log, i, |log|, k)
        {
          assert i < |log| - 1 && Erased(log, |log| - 1, k);
        }
      } else {
        ExtendAt(init, m, k);
        AllErasedWhenAbsent(init, k);
        forall i | Wrote(log, i, k)
          ensures ErasedBetween(log, i, |log|, k)
        {
          ErasedBetweenIsStable(init, m, k, i, |init|);
          var d :| i < d < |init| && Erased(log, d, k);
        }
      }
    }
  }

  /** What one entry does to the cell of key k, in terms of whether it takes effect there. */
  lemma ApplyAt(st: Store, m: Mutation, k: Bytes)
    ensures m.Key() == k && OutcomeOf(st, m) == Applied && m.op == Put ==>
              CellAt(Apply(st, m), k) == Some(StoredRecord(m.data, if k in st then st[k].createdAt else m.tsMs, m.tsMs))
    ensures m.Key() == k && OutcomeOf(st, m) == Applied && m.op == Delete ==> CellAt(Apply(st, m), k) == None
    ensures !(m.Key() == k && OutcomeOf(st, m) == Applied) ==> CellAt(Apply(st, m), k) == CellAt(st, k)
  {
    if OutcomeOf(st, m) != Applied {
      UnappliedIsNoOp(st, m);
    }
  }

  lemma WroteIsStable(log: seq<Mutation>, m: Mutation, k: Bytes)
    ensures forall i :: i < |log| ==>
              Wrote(log + [m], i, k) == Wrote(log, i, k) && Erased(log + [m], i, k) == Erased(log, i, k)
  {
    EffectIsStable(log, m, k);
    forall i | 0 <= i < |log|
      ensures (log + [m])[i] == log[i]
    {
    }
  }

  /** The store after one more entry, seen at k. */
  lemma ExtendAt(log: seq<Mutation>, m: Mutation, k: Bytes)
    ensures var st, st' := Fold(map[], log), Fold(map[], log + [m]);
            && (Wrote(log + [m], |log|, k) ==>
                  CellAt(st', k) == Some(StoredRecord(m.data, if k in st then st[k].createdAt else m.tsMs, m.tsMs)))
            && (Erased(log + [m], |log|, k) ==> CellAt(st', k) == None)
            && (!TookEffect(log + [m], |log|, k) ==> CellAt(st', k) == CellAt(st, k))
            && (TookEffect(log + [m], |log|, k) ==> Wrote(log + [m], |log|, k) || Erased(log + [m], |log|, k))
  {
    FoldConcat(map[], log, [m]);
    EffectIsStable(log, m, k);
    ApplyAt(Fold(map[], log), m, k);
  }

  lemma HistoryContinues(log: seq<Mutation>, m: Mutation, k: Bytes, first: int, last: int)
    requires k in Fold(map[], log) && Provenance(log, k, Fold(map[], log)[k], first, last)
    requires k in Fold(map[], log + [m])
    ensures Provenance(log + [m], k, Fold(map[], log + [m])[k], first,
                       if Wrote(log + [m], |log|, k) then |log| else last)
  {
    ExtendAt(log, m, k);
    WroteIsStable(log, m, k);
    forall i | i < first && Wrote(log + [m], i, k)
      ensures ErasedBetween(log + [m], i, first, k)
    {
      ErasedBetweenIsStable(log, m, k, i, first);
    }
  }

  lemma HistoryBegins(log: seq<Mutation>, m: Mutation, k: Bytes)
    requires k !in Fold(map[], log) && k in Fold(map[], log + [m])
    ensures Provenance(log + [m], k, Fold(map[], log + [m])[k], |log|, |log|)
  {
    ExtendAt(log, m, k);
    WroteIsStable(log, m, k);
    AllErasedWhenAbsent(log, k);
    forall i | i < |log| && Wrote(log + [m], i, k)
      ensures ErasedBetween(log + [m], i, |log|, k)
    {
      ErasedBetweenIsStable(log, m, k, i, |log|);
    }
  }

  /** After any log, every stored record has a provenance. */
  lemma {:induction false} History(log: seq<Mutation>, k: Bytes)
    requires k in Fold(map[], log)
    ensures exists first, last :: Provenance(log, k, Fold(map[], log)[k], first, last)
    decreases |log|
  {
    var n := |log| - 1;
    var init, m := log[..n], log[n];
    assert log == init + [m];
    if k in Fold(map[], init) {
      History(init, k);
      var first, last :| Provenance(init, k, Fold(map[], init)[k], first, last);
      HistoryContinues(init, m, k, first, last);
    } else {
      HistoryBegins(init, m, k);
    }
  }

  /** When the log's timestamps never decrease, no stored record was updated before it was created. */
  lemma CreatedBeforeUpdated(log: seq<Mutation>, k: Bytes)
    requires forall i, j :: 0 <= i <= j < |log| ==> log[i].tsMs <= log[j].tsMs
    requires k in Fold(map[], log)
    ensures Fold(map[], log)[k].createdAt <= Fold(map[], log)[k].updatedAt
  {
    History(log, k);
  }
}
