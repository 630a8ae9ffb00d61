/** Records, mutations, and what one log entry does to the store of a partition. */
module Records {
  import opened ByteStrings
  import opened StorageKeys

  datatype Option<+T> = None | Some(value: T)

  /** A record's document; a Go nil map is Null, any other document stands for its own JSON text. */
  datatype Data = Null | Document(json: string)

  datatype StoredRecord = StoredRecord(data: Data, createdAt: int, updatedAt: int) {
    function ToCompareRecord(pk: Bytes, sk: Bytes): CompareRecord {
      CompareRecord(pk, sk, data, createdAt, updatedAt)
    }

    function ToRecord(pk: Bytes, sk: Bytes): Record {
      Record(pk, sk, data, createdAt, updatedAt)
    }
  }

  datatype RecordKey = RecordKey(pk: Bytes, sk: Bytes) {
    function Storage(): Bytes {
      FormatRecordKey(pk, sk)
    }
  }

  datatype Record = Record(pk: Bytes, sk: Bytes, data: Data, createdAt: int, updatedAt: int)

  /** Everything a condition can see. */
  datatype CompareRecord = CompareRecord(pk: Bytes, sk: Bytes, data: Data, createdAt: int, updatedAt: int)

  datatype Verdict = Holds | Fails | Error

  /** An `if` statement: any total function of a compare record; evaluating it may fail. */
  type Condition = CompareRecord -> Verdict

  function Compare(cond: Option<Condition>, r: CompareRecord): Verdict {
    if cond.None? then Holds else cond.value(r)
  }

  datatype Operation = Put | Delete | Unknown

  datatype Mutation = Mutation(op: Operation, pk: Bytes, sk: Bytes, data: Data, tsMs: int, cond: Option<Condition>) {
    function Key(): Bytes {
      FormatRecordKey(pk, sk)
    }
  }

  type Store = map<Bytes, StoredRecord>
  type Cell = Option<StoredRecord>

  /** Applied: the record was written or deleted. Skipped: the condition did not hold. Both record the offset.
      Unrecorded: the transaction returned without recording it. Failed: the transaction was abandoned. */
  datatype Outcome = Applied | Skipped | Unrecorded | Failed {
    predicate RecordsOffset() {
      Applied? || Skipped?
    }
  }

  datatype Effect = Effect(cell: Cell, outcome: Outcome)

  /** The effect of a mutation on the one cell it addresses. */
  function ApplyCell(cell: Cell, m: Mutation): Effect {
    match m.op
    case Put =>
      var stored := if cell.None? then StoredRecord(Null, m.tsMs, m.tsMs) else cell.value.(updatedAt := m.tsMs);
      (match Compare(m.cond, stored.ToCompareRecord(m.pk, m.sk))
       case Holds => Effect(Some(stored.(data := m.data)), Applied)
       case Fails => Effect(cell, Skipped)
       case Error => Effect(cell, Failed))
    case Delete =>
      if m.cond.None? then
        Effect(None, Applied)
      else if cell.None? then
        Effect(None, Unrecorded)
      else
        (match Compare(m.cond, cell.value.ToCompareRecord(m.pk, m.sk))
         case Holds => Effect(None, Applied)
         case Fails => Effect(cell, Skipped)
         case Error => Effect(cell, Failed))
    case Unknown =>
      Effect(cell, Failed)
  }

  function CellAt(st: Store, k: Bytes): Cell {
    if k in st then Some(st[k]) else None
  }

  function SetCell(st: Store, k: Bytes, c: Cell): Store {
    if c.Some? then st[k := c.value] else st - {k}
  }

  function Apply(st: Store, m: Mutation): Store {
    SetCell(st, m.Key(), ApplyCell(CellAt(st, m.Key()), m).cell)
  }

  function OutcomeOf(st: Store, m: Mutation): Outcome {
    ApplyCell(CellAt(st, m.Key()), m).outcome
  }

  /** The store that a log materialises to. */
  function Fold(st: Store, log: seq<Mutation>): Store
    decreases log
  {
    if log == [] then st else Fold(Apply(st, log[0]), log[1..])
  }

  /** The fold seen at one key only. */
  function FoldCell(c: Cell, log: seq<Mutation>, k: Bytes): Cell
    decreases log
  {
    if log == [] then c
    else FoldCell(if log[0].Key() == k then ApplyCell(c, log[0]).cell else c, log[1..], k)
  }

  lemma {:induction false} FoldConcat(st: Store, a: seq<Mutation>, b: seq<Mutation>)
    ensures Fold(st, a + b) == Fold(Fold(st, a), b)
    decreases a
  {
    if a == [] {
      assert a + b == b;
    } else {
      assert (a + b)[1..] == a[1..] + b;
      FoldConcat(Apply(st, a[0]), a[1..], b);
    }
  }

  lemma FoldExtend(st: Store, log: seq<Mutation>, i: nat, n: nat)
    requires i <= n < |log|
    ensures Fold(st, log[i..n + 1]) == Apply(Fold(st, log[i..n]), log[n])
  {
    assert log[i..n + 1] == log[i..n] + [log[n]];
    FoldConcat(st, log[i..n], [log[n]]);
  }

  lemma FoldSplit(st: Store, log: seq<Mutation>, i: nat, m: nat, n: nat)
    requires i <= m <= n <= |log|
    ensures Fold(st, log[i..n]) == Fold(Fold(st, log[i..m]), log[m..n])
  {
    assert log[i..n] == log[i..m] + log[m..n];
    FoldConcat(st, log[i..m], log[m..n]);
  }

  lemma {:induction false} FoldCellConcat(c: Cell, a: seq<Mutation>, b: seq<Mutation>, k: Bytes)
    ensures FoldCell(c, a + b, k) == FoldCell(FoldCell(c, a, k), b, k)
    decreases a
  {
    if a == [] {
      assert a + b == b;
    } else {
      assert (a + b)[1..] == a[1..] + b;
      FoldCellConcat(if a[0].Key() == k then ApplyCell(c, a[0]).cell else c, a[1..], b, k);
    }
  }

  /** The fold works cell by cell: no entry at one key can influence another. */
  lemma {:induction false} FoldIsCellwise(st: Store, log: seq<Mutation>, k: Bytes)
    ensures CellAt(Fold(st, log), k) == FoldCell(CellAt(st, k), log, k)
    decreases log
  {
    if log != [] {
      FoldIsCellwise(Apply(st, log[0]), log[1..], k);
    }
  }

  predicate Touched(log: seq<Mutation>, k: Bytes) {
    exists i :: 0 <= i < |log| && log[i].Key() == k
  }

  lemma TouchedNext(log: seq<Mutation>, k: Bytes)
    requires log != []
    ensures Touched(log, k) <==> log[0].Key() == k || Touched(log[1..], k)
  {
    assert log == [log[0]] + log[1..];
    assert forall i :: 0 <= i < |log[1..]| ==> log[1..][i] == log[i + 1];
  }

  lemma {:induction false} Untouched(c: Cell, log: seq<Mutation>, k: Bytes)
    requires !Touched(log, k)
    ensures FoldCell(c, log, k) == c
    decreases log
  {
    if log != [] {
      TouchedNext(log, k);
      Untouched(c, log[1..], k);
    }
  }

  lemma StoreExtensional(a: Store, b: Store)
    requires forall k :: CellAt(a, k) == CellAt(b, k)
    ensures a == b
  {
    forall k
      ensures k in a <==> k in b
      ensures k in a ==> a[k] == b[k]
    {
      assert CellAt(a, k) == CellAt(b, k);
    }
  }

  // What a mutation does, field by field.

  /** A put that finds no record starts from one without data; the creation time is kept, and the condition sees the
      put's own time as the update time. */
  lemma PutInFull(st: Store, m: Mutation)
    requires m.op.Put?
    ensures var k := FormatRecordKey(m.pk, m.sk);
            var data := if k in st then st[k].data else Null;
            var createdAt := if k in st then st[k].createdAt else m.tsMs;
            var seen := CompareRecord(m.pk, m.sk, data, createdAt, m.tsMs);
            var verdict := if m.cond.None? then Holds else m.cond.value(seen);
            && OutcomeOf(st, m) == (match verdict case Holds => Applied case Fails => Skipped case Error => Failed)
            && Apply(st, m) == if verdict == Holds then st[k := StoredRecord(m.data, createdAt, m.tsMs)] else st
  {
    if OutcomeOf(st, m) != Applied {
      UnappliedIsNoOp(st, m);
    }
  }

  /** A conditional delete whose key is not in the store. */
  ghost predicate DeletesAbsent(st: Store, m: Mutation) {
    m.op.Delete? && m.cond.Some? && FormatRecordKey(m.pk, m.sk) !in st
  }

  /** A delete's condition sees the record as it is stored. */
  lemma DeleteInFull(st: Store, m: Mutation)
    requires m.op.Delete?
    ensures OutcomeOf(st, m) == Unrecorded <==> DeletesAbsent(st, m)
    ensures !DeletesAbsent(st, m) ==>
              var k := FormatRecordKey(m.pk, m.sk);
              var verdict :=
                if m.cond.None? then Holds
                else m.cond.value(CompareRecord(m.pk, m.sk, st[k].data, st[k].createdAt, st[k].updatedAt));
              && OutcomeOf(st, m) == (match verdict case Holds => Applied case Fails => Skipped case Error => Failed)
              && Apply(st, m) == if verdict == Holds then st - {k} else st
    ensures DeletesAbsent(st, m) ==> Apply(st, m) == st
  {
    if OutcomeOf(st, m) != Applied {
      UnappliedIsNoOp(st, m);
    }
  }

  /** Only a conditional delete of an absent key passes without being recorded. */
  lemma UnrecordedIff(st: Store, m: Mutation)
    ensures OutcomeOf(st, m) == Unrecorded <==> DeletesAbsent(st, m)
  {
    match m.op
    case Put => PutInFull(st, m);
    case Delete => DeleteInFull(st, m);
    case Unknown =>
  }

  /** Whatever update time is stored, a put has the same outcome, and the same effect when it writes. */
  lemma PutIgnoresUpdateTime(st: Store, m: Mutation, t: int)
    requires m.op.Put? && FormatRecordKey(m.pk, m.sk) in st
    ensures var k := FormatRecordKey(m.pk, m.sk);
            var st' := st[k := StoredRecord(st[k].data, st[k].createdAt, t)];
            OutcomeOf(st', m) == OutcomeOf(st, m) && (OutcomeOf(st, m) == Applied ==> Apply(st', m) == Apply(st, m))
  {
    var k := FormatRecordKey(m.pk, m.sk);
    var st' := st[k := StoredRecord(st[k].data, st[k].createdAt, t)];
    PutInFull(st, m);
    PutInFull(st', m);
    var written := StoredRecord(m.data, st[k].createdAt, m.tsMs);
    assert st'[k := written] == st[k := written];
  }

  /** A mutation that is not applied leaves the store as it was. */
  lemma UnappliedIsNoOp(st: Store, m: Mutation)
    requires OutcomeOf(st, m) != Applied
    ensures Apply(st, m) == st
  {
    StoreExtensional(Apply(st, m), st);
  }
}
