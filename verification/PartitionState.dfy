/** A partition as a value: what its disk holds, what its process remembers, and how each operation changes both. */
module PartitionState {
  import opened StorageKeys
  import opened Records

  /** The durable part: the records and the offset saved with them. */
  datatype Disk = Disk(store: Store, saved: Option<int>)

  const EMPTY_DISK := Disk(map[], None)

  /** An open partition. `lastOffset` is the in-memory field; after a restore it may differ from `disk.saved`. */
  datatype Part = Part(disk: Disk, lastOffset: Option<int>)

  datatype Snapshot = Snapshot(offset: int, content: Disk)

  /** HandleMutation: records and offset change together, in the store and in memory, or not at all. */
  function Handle(p: Part, m: Mutation, offset: int): Part {
    if OutcomeOf(p.disk.store, m).RecordsOffset() then
      Part(Disk(Apply(p.disk.store, m), Some(offset)), Some(offset))
    else p
  }

  /** p' is p after a mutation with this verdict, which would bring the records to `store`. */
  ghost predicate Decided(p: Part, verdict: Verdict, store: Store, offset: int, ok: bool, p': Part) {
    && (ok <==> verdict != Error)
    && match verdict
       case Holds => p' == Part(Disk(store, Some(offset)), Some(offset))
       case Fails => p' == Part(Disk(p.disk.store, Some(offset)), Some(offset))
       case Error => p' == p
  }

  /** A put sees and writes the new update time and keeps the creation time. It writes when its condition holds,
      saves only the offset when it does not, and is an error that changes nothing when it cannot be evaluated. */
  ghost predicate PutDone(p: Part, m: Mutation, offset: int, ok: bool, p': Part) {
    var st, k := p.disk.store, FormatRecordKey(m.pk, m.sk);
    var data := if k in st then st[k].data else Null;
    var createdAt := if k in st then st[k].createdAt else m.tsMs;
    var seen := CompareRecord(m.pk, m.sk, data, createdAt, m.tsMs);
    Decided(p, if m.cond.None? then Holds else m.cond.value(seen), st[k := StoredRecord(m.data, createdAt, m.tsMs)],
            offset, ok, p')
  }

  /** A conditional delete of an absent key changes nothing, not even the offset, and is no error. Any other delete
      sees the stored record, and is decided by its condition as a put is. */
  ghost predicate DeleteDone(p: Part, m: Mutation, offset: int, ok: bool, p': Part) {
    var st, k := p.disk.store, FormatRecordKey(m.pk, m.sk);
    if m.cond.None? then Decided(p, Holds, st - {k}, offset, ok, p')
    else if k !in st then ok && p' == p
    else
      var seen := CompareRecord(m.pk, m.sk, st[k].data, st[k].createdAt, st[k].updatedAt);
      Decided(p, m.cond.value(seen), st - {k}, offset, ok, p')
  }

  ghost predicate MutationDone(p: Part, m: Mutation, offset: int, ok: bool, p': Part) {
    match m.op
    case Put => PutDone(p, m, offset, ok, p')
    case Delete => DeleteDone(p, m, offset, ok, p')
    case Unknown => !ok && p' == p
  }

  /** The state function and the outcome say exactly that. */
  lemma HandleInFull(p: Part, m: Mutation, offset: int, ok: bool, p': Part)
    ensures MutationDone(p, m, offset, ok, p') <==>
            p' == Handle(p, m, offset) && (ok <==> OutcomeOf(p.disk.store, m) != Failed)
  {
    hide Apply, OutcomeOf;
    match m.op {
    case Put => PutInFull(p.disk.store, m);
    case Delete => DeleteInFull(p.disk.store, m);
    case Unknown => UnknownFails(p.disk.store, m);
    }
    assert OutcomeOf(p.disk.store, m) != Applied ==> Apply(p.disk.store, m) == p.disk.store by {
      if OutcomeOf(p.disk.store, m) != Applied {
        UnappliedIsNoOp(p.disk.store, m);
      }
    }
  }

  lemma UnknownFails(st: Store, m: Mutation)
    requires m.op.Unknown?
    ensures OutcomeOf(st, m) == Failed
  {
  }

  /** The first log position that is not behind an offset. */
  function Next(offset: Option<int>): int {
    if offset.None? then 0 else offset.value + 1
  }

  /** A remote snapshot replaces the local disk when its offset is ahead of the local one. */
  predicate UsesRemote(local: Disk, newest: Option<Snapshot>) {
    newest.Some? && (local.saved.None? || local.saved.value < newest.value.offset)
  }

  function Recover(local: Disk, newest: Option<Snapshot>): Part {
    if UsesRemote(local, newest) then Part(newest.value.content, Some(newest.value.offset))
    else Part(local, local.saved)
  }

  /** The position after opening is the larger of the local offset and the snapshot's: opening never moves back. The
      records are those of the side that is ahead, and the local ones when neither is. */
  lemma RecoverTakesTheLater(local: Disk, newest: Option<Snapshot>)
    ensures || Recover(local, newest) == Part(local, local.saved)
            || (newest.Some? && Recover(local, newest) == Part(newest.value.content, Some(newest.value.offset)))
    ensures newest.None? || local.saved == Some(newest.value.offset) ==>
              Recover(local, newest) == Part(local, local.saved)
    ensures var after := Recover(local, newest).lastOffset;
            && (after == local.saved || (newest.Some? && after == Some(newest.value.offset)))
            && (local.saved.Some? ==> after.Some? && local.saved.value <= after.value)
            && (newest.Some? ==> after.Some? && newest.value.offset <= after.value)
  {
  }

  /** The snapshot that the search for the newest backup finds: an offset of 0 is never chosen. */
  ghost predicate IsNewest(backups: map<int, Disk>, newest: Option<Snapshot>) {
    match newest
    case None => forall o :: o in backups ==> o <= 0
    case Some(s) =>
      && s.offset > 0 && s.offset in backups && s.content == backups[s.offset]
      && forall o :: o in backups ==> o <= s.offset
  }
}
