/** What a prefix listing returns, stated over the ordered keys of a store. */
module Listing {
  import opened ByteStrings
  import opened StorageKeys
  import opened Records

  /** How a listing treats one key of its range. */
  datatype Visit = Broken | Skip | Keep(record: Record) | Drop

  datatype ListResult = Listed(records: seq<Record>) | ListError

  datatype Query = Query(pk: Bytes, skPrefix: Bytes, limit: int, cond: Option<Condition>, ifStop: bool) {
    function Prefix(): Bytes {
      FormatRecordKey(pk, skPrefix)
    }
  }

  function VisitKey(st: Store, q: Query, k: Bytes): Visit
    requires k in st && q.Prefix() <= k
  {
    match SplitRecordKey(k)
    case InvalidKey => Broken
    case Parts(pk, sk) =>
      if q.skPrefix == sk then Skip
      else match Compare(q.cond, st[k].ToCompareRecord(pk, sk))
        case Holds => Keep(st[k].ToRecord(pk, sk))
        case Fails => Drop
        case Error => Broken
  }

  /** The keys of the range, in order. */
  function Under(keys: seq<Bytes>, prefix: Bytes): (run: seq<Bytes>)
    ensures |run| <= |keys|
  {
    if keys == [] then []
    else (if prefix <= keys[0] then [keys[0]] else []) + Under(keys[1..], prefix)
  }

  lemma {:induction false} UnderMember(keys: seq<Bytes>, prefix: Bytes)
    ensures forall k :: k in Under(keys, prefix) <==> k in keys && prefix <= k
  {
    if keys != [] {
      UnderMember(keys[1..], prefix);
      assert keys == [keys[0]] + keys[1..];
    }
  }

  function Visits(st: Store, q: Query, run: seq<Bytes>): (v: seq<Visit>)
    requires forall k :: k in run ==> k in st && q.Prefix() <= k
    ensures |v| == |run|
    ensures forall i :: 0 <= i < |run| ==> v[i] == VisitKey(st, q, run[i])
  {
    seq(|run|, i requires 0 <= i < |run| => VisitKey(st, q, run[i]))
  }

  /** The index of the first visit of one kind, or the number of visits when there is none. */
  function First(v: seq<Visit>, kind: Visit): (i: nat)
    ensures i <= |v|
    ensures forall j :: 0 <= j < i ==> v[j] != kind
    ensures i < |v| ==> v[i] == kind
  {
    if v == [] || v[0] == kind then 0 else 1 + First(v[1..], kind)
  }

  function Kept(v: seq<Visit>): (records: seq<Record>) {
    if v == [] then []
    else (if v[0].Keep? then [v[0].record] else []) + Kept(v[1..])
  }

  /** The kept records before the first broken key and, when asked to stop, before the first dropped one.
      A nonzero limit that they reach cuts them; otherwise a broken key that is reached is an error. */
  function Outcomes(v: seq<Visit>, limit: int, ifStop: bool): ListResult {
    var broken := First(v, Broken);
    var stop := if ifStop then First(v, Drop) else |v|;
    var pool := Kept(v[..if broken < stop then broken else stop]);
    if limit != 0 && |pool| >= limit then Listed(if limit < 0 then [] else pool[..limit])
    else if broken < stop then ListError
    else Listed(pool)
  }

  function Range(st: Store, q: Query): (run: seq<Bytes>)
    ensures forall k :: k in run <==> k in st && q.Prefix() <= k
  {
    UnderMember(Sorted(st.Keys), q.Prefix());
    Under(Sorted(st.Keys), q.Prefix())
  }

  function List(st: Store, q: Query): ListResult {
    Outcomes(Visits(st, q, Range(st, q)), q.limit, q.ifStop)
  }

  // The range is the stretch of keys that an iterator meets after seeking the prefix.

  /** The position of the first key that is not below the prefix. */
  function Seek(keys: seq<Bytes>, prefix: Bytes): (i: nat)
    ensures i <= |keys|
    ensures forall j :: 0 <= j < i ==> !Leq(prefix, keys[j])
    ensures i < |keys| ==> Leq(prefix, keys[i])
  {
    if keys == [] || Leq(prefix, keys[0]) then 0 else 1 + Seek(keys[1..], prefix)
  }

  lemma {:induction false} UnderConcat(a: seq<Bytes>, b: seq<Bytes>, prefix: Bytes)
    ensures Under(a + b, prefix) == Under(a, prefix) + Under(b, prefix)
  {
    if a == [] {
      assert a + b == b;
    } else {
      assert (a + b)[1..] == a[1..] + b;
      UnderConcat(a[1..], b, prefix);
    }
  }

  ghost predicate NoneHas(a: seq<Bytes>, prefix: Bytes) {
    forall i :: 0 <= i < |a| ==> !(prefix <= a[i])
  }

  ghost predicate NoneBelow(a: seq<Bytes>, prefix: Bytes) {
    forall i :: 0 <= i < |a| ==> Leq(prefix, a[i])
  }

  lemma {:induction false} UnderNone(a: seq<Bytes>, prefix: Bytes)
    requires NoneHas(a, prefix)
    ensures Under(a, prefix) == []
  {
    if a != [] {
      UnderNone(a[1..], prefix);
    }
  }

  /** Among ascending keys not below the prefix, those that have it come first. */
  lemma {:induction false} UnderComesFirst(a: seq<Bytes>, prefix: Bytes)
    requires Ascending(a) && NoneBelow(a, prefix)
    ensures var n := |Under(a, prefix)|; Under(a, prefix) == a[..n] && (n < |a| ==> !(prefix <= a[n]))
  {
    hide Leq;
    if a != [] && prefix <= a[0] {
      assert forall i :: 0 <= i < |a[1..]| ==> a[1..][i] == a[i + 1];
      UnderComesFirst(a[1..], prefix);
      assert a == [a[0]] + a[1..];
    } else if a != [] {
      forall j | 0 <= j < |a|
        ensures !(prefix <= a[j])
      {
        if prefix <= a[j] {
          assert j != 0 && Less(a[0], a[j]);
          PrefixContiguous(prefix, a[0], a[j]);
        }
      }
      UnderNone(a, prefix);
    }
  }

  lemma SeekSeparates(keys: seq<Bytes>, prefix: Bytes)
    requires Ascending(keys)
    ensures var s := Seek(keys, prefix);
            NoneHas(keys[..s], prefix) && NoneBelow(keys[s..], prefix) && Ascending(keys[s..])
  {
    var s := Seek(keys, prefix);
    forall j | 0 <= j < s
      ensures !(prefix <= keys[..s][j])
    {
      if prefix <= keys[j] {
        PrefixIsLeq(prefix, keys[j]);
      }
    }
    forall j | 0 <= j < |keys| - s
      ensures Leq(prefix, keys[s..][j])
    {
      if j != 0 {
        assert Less(keys[s], keys[s + j]);
        LeqTransitive(prefix, keys[s], keys[s + j]);
      }
    }
  }

  lemma UnderAfter(keys: seq<Bytes>, s: nat, prefix: Bytes)
    requires s <= |keys| && NoneHas(keys[..s], prefix)
    requires var n := |Under(keys[s..], prefix)|;
             Under(keys[s..], prefix) == keys[s..][..n] && (n < |keys[s..]| ==> !(prefix <= keys[s..][n]))
    ensures IsRun(keys, s, Under(keys, prefix), prefix)
  {
    assert Under(keys, prefix) == Under(keys[s..], prefix) by {
      UnderConcat(keys[..s], keys[s..], prefix);
      UnderNone(keys[..s], prefix);
      assert keys[..s] + keys[s..] == keys;
    }
    var n := |Under(keys, prefix)|;
    assert keys[s..][..n] == keys[s..s + n];
  }

  ghost predicate IsRun(keys: seq<Bytes>, s: nat, run: seq<Bytes>, prefix: Bytes) {
    && s + |run| <= |keys|
    && run == keys[s..s + |run|]
    && (s + |run| < |keys| ==> !(prefix <= keys[s + |run|]))
  }

  /** The keys with the prefix are exactly those an iterator sees from the seek point until the prefix is lost. */
  lemma RangeIsRun(keys: seq<Bytes>, prefix: Bytes)
    requires Ascending(keys)
    ensures IsRun(keys, Seek(keys, prefix), Under(keys, prefix), prefix)
  {
    var s := Seek(keys, prefix);
    SeekSeparates(keys, prefix);
    UnderComesFirst(keys[s..], prefix);
    UnderAfter(keys, s, prefix);
  }

  // The kept records, by position.

  /** The position among the visits of the a-th kept record. */
  function KeptIndex(v: seq<Visit>, a: nat): (i: nat)
    requires a < |Kept(v)|
    ensures i < |v| && v[i] == Keep(Kept(v)[a])
  {
    if v[0].Keep? then (if a == 0 then 0 else 1 + KeptIndex(v[1..], a - 1)) else 1 + KeptIndex(v[1..], a)
  }

  lemma {:induction false} KeptIndexIncreases(v: seq<Visit>, a: nat, b: nat)
    requires a < b < |Kept(v)|
    ensures KeptIndex(v, a) < KeptIndex(v, b)
  {
    if !v[0].Keep? {
      KeptIndexIncreases(v[1..], a, b);
    } else if a != 0 {
      KeptIndexIncreases(v[1..], a - 1, b - 1);
    }
  }

  lemma {:induction false} KeptFind(v: seq<Visit>, i: nat) returns (a: nat)
    requires i < |v| && v[i].Keep?
    ensures a < |Kept(v)| && KeptIndex(v, a) == i
  {
    if i == 0 {
      a := 0;
    } else {
      a := KeptFind(v[1..], i - 1);
      a := if v[0].Keep? then a + 1 else a;
    }
  }

  // A loop over the visits, stopped in one of four ways.

  lemma {:induction false} KeptConcat(a: seq<Visit>, b: seq<Visit>)
    ensures Kept(a + b) == Kept(a) + Kept(b)
  {
    if a == [] {
      assert a + b == b;
    } else {
      assert (a + b)[1..] == a[1..] + b;
      KeptConcat(a[1..], b);
      var head := if a[0].Keep? then [a[0].record] else [];
      assert Kept(a + b) == head + Kept(a[1..] + b);
    }
  }

  lemma KeptNext(v: seq<Visit>, j: nat)
    requires j < |v|
    ensures Kept(v[..j + 1]) == Kept(v[..j]) + if v[j].Keep? then [v[j].record] else []
  {
    assert v[..j + 1] == v[..j] + [v[j]];
    KeptConcat(v[..j], [v[j]]);
  }

  /** The first j visits went by without an error or a stop, and before the limit. */
  ghost predicate Passed(v: seq<Visit>, j: nat, limit: int, ifStop: bool) {
    && j <= |v|
    && (forall i :: 0 <= i < j ==> v[i] != Broken && (ifStop ==> v[i] != Drop))
    && (j > 0 ==> limit == 0 || |Kept(v[..j])| <= limit)
  }

  predicate LimitReached(read: nat, limit: int) {
    limit != 0 && read >= limit
  }

  lemma OutcomeHere(v: seq<Visit>, j: nat, limit: int, ifStop: bool)
    requires Passed(v, j, limit, ifStop)
    ensures var records := Kept(v[..j]);
            if LimitReached(|records|, limit) || j == |v| then Outcomes(v, limit, ifStop) == Listed(records)
            else if v[j] == Broken then Outcomes(v, limit, ifStop) == ListError
            else ifStop && v[j] == Drop ==> Outcomes(v, limit, ifStop) == Listed(records)
  {
    var broken := First(v, Broken);
    var stop := if ifStop then First(v, Drop) else |v|;
    var m := if broken < stop then broken else stop;
    assert j <= m && v[..m] == v[..j] + v[j..m];
    KeptConcat(v[..j], v[j..m]);
    assert v[..0] == [];
  }

  // What a listing means for a store whose keys are all well formed.

  /** k is the storage key of a NUL-free pk and a NUL-free sk. */
  ghost predicate WellFormedKey(k: Bytes) {
    exists pk, sk :: NulFree(pk) && NulFree(sk) && k == FormatRecordKey(pk, sk)
  }

  ghost predicate WellKeyed(st: Store) {
    forall k :: k in st ==> WellFormedKey(k)
  }

  ghost predicate Total(cond: Option<Condition>) {
    cond.Some? ==> forall r :: cond.value(r) != Error
  }

  /** The verdict on a stored record; without a condition every record passes. */
  ghost predicate Judged(q: Query, pk: Bytes, sk: Bytes, s: StoredRecord, verdict: Verdict) {
    if q.cond.None? then verdict == Holds
    else q.cond.value(CompareRecord(pk, sk, s.data, s.createdAt, s.updatedAt)) == verdict
  }

  /** The store has a record (pk, sk) whose sort key strictly extends the listed prefix, with this verdict. */
  ghost predicate Candidate(st: Store, q: Query, sk: Bytes, verdict: Verdict) {
    && q.skPrefix <= sk && q.skPrefix != sk
    && FormatRecordKey(q.pk, sk) in st
    && Judged(q, q.pk, sk, st[FormatRecordKey(q.pk, sk)], verdict)
  }

  /** The run of a well-keyed store, key by key. */
  lemma RunKey(st: Store, q: Query, k: Bytes) returns (sk: Bytes)
    requires WellKeyed(st) && NulFree(q.pk) && k in st && q.Prefix() <= k
    ensures k == FormatRecordKey(q.pk, sk) && SplitRecordKey(k) == Parts(q.pk, sk) && q.skPrefix <= sk
    ensures Total(q.cond) ==> VisitKey(st, q, k) != Broken
    ensures VisitKey(st, q, k) == Drop <==> Candidate(st, q, sk, Fails)
    ensures VisitKey(st, q, k).Keep? <==> Candidate(st, q, sk, Holds)
    ensures VisitKey(st, q, k).Keep? ==>
              VisitKey(st, q, k).record == Record(q.pk, sk, st[k].data, st[k].createdAt, st[k].updatedAt)
  {
    assert WellFormedKey(k);
    var p, s :| NulFree(p) && NulFree(s) && k == FormatRecordKey(p, s);
    ScanPrefixIff(q.pk, q.skPrefix, p, s);
    SplitUndoesFormat(p, s);
    sk := s;
  }

  /** A candidate is visited at some position of the run. */
  lemma CandidateInRun(st: Store, q: Query, sk: Bytes, verdict: Verdict) returns (i: nat)
    requires Candidate(st, q, sk, verdict)
    ensures i < |Range(st, q)| && Range(st, q)[i] == FormatRecordKey(q.pk, sk)
  {
    var k := FormatRecordKey(q.pk, sk);
    assert k == q.Prefix() + sk[|q.skPrefix|..];
    assert k in Range(st, q);
    i :| 0 <= i < |Range(st, q)| && Range(st, q)[i] == k;
  }

  lemma AscendingRun(keys: seq<Bytes>, s: nat, run: seq<Bytes>, prefix: Bytes)
    requires Ascending(keys) && IsRun(keys, s, run, prefix)
    ensures Ascending(run)
  {
    assert forall i :: 0 <= i < |run| ==> run[i] == keys[s + i];
  }

  lemma RangeAscends(st: Store, q: Query)
    ensures Ascending(Range(st, q))
  {
    hide Under, Seek, Ascending;
    var keys := Sorted(st.Keys);
    RangeIsRun(keys, q.Prefix());
    AscendingRun(keys, Seek(keys, q.Prefix()), Range(st, q), q.Prefix());
  }

  /** Positions in the run are in the order of the sort keys. */
  lemma RunOrder(st: Store, q: Query, i: nat, j: nat, s: Bytes, t: Bytes)
    requires NulFree(q.pk) && i < |Range(st, q)| && j < |Range(st, q)|
    requires Range(st, q)[i] == FormatRecordKey(q.pk, s) && Range(st, q)[j] == FormatRecordKey(q.pk, t)
    ensures i < j <==> Less(s, t)
    ensures i == j <==> s == t
  {
    RangeAscends(st, q);
    FormatPreservesOrder(q.pk, s, q.pk, t);
    FormatPreservesOrder(q.pk, t, q.pk, s);
    if s == t || i == j {
      FormatInjective(q.pk, s, q.pk, t);
    }
    LeqTotal(s, t);
    if Leq(s, t) && Leq(t, s) {
      LeqAntisymmetric(s, t);
    }
    if j < i && Less(s, t) {
      LeqAntisymmetric(FormatRecordKey(q.pk, s), FormatRecordKey(q.pk, t));
    }
    if i < j && Less(t, s) {
      LeqAntisymmetric(FormatRecordKey(q.pk, s), FormatRecordKey(q.pk, t));
    }
  }

  /** The records a listing may return: stored under this pk, strictly extending the prefix, passing the condition. */
  ghost predicate Genuine(st: Store, q: Query, r: Record) {
    && r.pk == q.pk
    && Candidate(st, q, r.sk, Holds)
    && var s := st[FormatRecordKey(q.pk, r.sk)]; r == Record(q.pk, r.sk, s.data, s.createdAt, s.updatedAt)
  }

  /** Nothing that passes was left out, except beyond a limit that was reached or beyond a stopping record. */
  ghost predicate LeftOutRightly(st: Store, q: Query, rs: seq<Record>, sk: Bytes) {
    || (exists a :: 0 <= a < |rs| && rs[a].sk == sk)
    || (q.limit != 0 && |rs| >= q.limit && forall a :: 0 <= a < |rs| ==> Less(rs[a].sk, sk))
    || (q.ifStop && exists u :: Candidate(st, q, u, Fails) && Less(u, sk))
  }

  ghost predicate Answers(st: Store, q: Query, rs: seq<Record>) {
    && (q.limit < 0 ==> rs == [])
    && (q.limit > 0 ==> |rs| <= q.limit)
    && (forall a :: 0 <= a < |rs| ==> Genuine(st, q, rs[a]))
    && (forall a, b :: 0 <= a < b < |rs| ==> Less(rs[a].sk, rs[b].sk))
    && (forall sk :: Candidate(st, q, sk, Holds) ==> LeftOutRightly(st, q, rs, sk))
    && (q.ifStop ==> forall u, a :: Candidate(st, q, u, Fails) && 0 <= a < |rs| ==> !Less(u, rs[a].sk))
  }

  /** The visits that the listing gets to before it is stopped. */
  ghost function Pool(st: Store, q: Query): (w: seq<Visit>) {
    var v := Visits(st, q, Range(st, q));
    v[..if q.ifStop then First(v, Drop) else |v|]
  }

  lemma CleanVisits(st: Store, q: Query)
    requires WellKeyed(st) && NulFree(q.pk) && Total(q.cond)
    ensures forall i :: 0 <= i < |Range(st, q)| ==> Visits(st, q, Range(st, q))[i] != Broken
  {
    forall i | 0 <= i < |Range(st, q)|
      ensures Visits(st, q, Range(st, q))[i] != Broken
    {
      assert Range(st, q)[i] in Range(st, q);
      var _ := RunKey(st, q, Range(st, q)[i]);
    }
  }

  lemma CleanOutcome(st: Store, q: Query)
    requires WellKeyed(st) && NulFree(q.pk) && Total(q.cond)
    ensures List(st, q) == Listed(var pool := Kept(Pool(st, q));
                                  if q.limit != 0 && |pool| >= q.limit
                                    then (if q.limit < 0 then [] else pool[..q.limit]) else pool)
  {
    CleanVisits(st, q);
    assert First(Visits(st, q, Range(st, q)), Broken) == |Range(st, q)|;
  }

  lemma KeptIsGenuine(st: Store, q: Query, a: nat)
    requires WellKeyed(st) && NulFree(q.pk) && a < |Kept(Pool(st, q))|
    ensures Genuine(st, q, Kept(Pool(st, q))[a])
    ensures Range(st, q)[KeptIndex(Pool(st, q), a)] == FormatRecordKey(q.pk, Kept(Pool(st, q))[a].sk)
  {
    var i := KeptIndex(Pool(st, q), a);
    assert Range(st, q)[i] in Range(st, q);
    var _ := RunKey(st, q, Range(st, q)[i]);
  }

  lemma KeptAscends(st: Store, q: Query, a: nat, b: nat)
    requires WellKeyed(st) && NulFree(q.pk) && a < b < |Kept(Pool(st, q))|
    ensures Less(Kept(Pool(st, q))[a].sk, Kept(Pool(st, q))[b].sk)
  {
    var w := Pool(st, q);
    KeptIsGenuine(st, q, a);
    KeptIsGenuine(st, q, b);
    KeptIndexIncreases(w, a, b);
    RunOrder(st, q, KeptIndex(w, a), KeptIndex(w, b), Kept(w)[a].sk, Kept(w)[b].sk);
  }

  /** A passing record is kept, or some failing record stops the listing before it. */
  lemma PassingIsKept(st: Store, q: Query, sk: Bytes) returns (a: nat)
    requires WellKeyed(st) && NulFree(q.pk) && Candidate(st, q, sk, Holds)
    ensures || (a < |Kept(Pool(st, q))| && Kept(Pool(st, q))[a].sk == sk)
            || (q.ifStop && exists u :: Candidate(st, q, u, Fails) && Less(u, sk))
  {
    var run, w := Range(st, q), Pool(st, q);
    var i := CandidateInRun(st, q, sk, Holds);
    assert run[i] in run;
    var t := RunKey(st, q, run[i]);
    FormatInjectiveSk(q.pk, sk, t);
    if i < |w| {
      a := KeptFind(w, i);
    } else {
      a := 0;
      assert run[|w|] in run;
      var u := RunKey(st, q, run[|w|]);
      RunOrder(st, q, |w|, i, u, sk);
    }
  }

  lemma FormatInjectiveSk(pk: Bytes, s: Bytes, t: Bytes)
    requires FormatRecordKey(pk, s) == FormatRecordKey(pk, t)
    ensures s == t
  {
    assert s == FormatRecordKey(pk, s)[|pk| + 2..];
    assert t == FormatRecordKey(pk, t)[|pk| + 2..];
  }

  lemma FailingStops(st: Store, q: Query, u: Bytes, a: nat)
    requires WellKeyed(st) && NulFree(q.pk) && q.ifStop && Candidate(st, q, u, Fails) && a < |Kept(Pool(st, q))|
    ensures !Less(u, Kept(Pool(st, q))[a].sk)
  {
    var run, w := Range(st, q), Pool(st, q);
    var j := CandidateInRun(st, q, u, Fails);
    assert run[j] in run;
    var t := RunKey(st, q, run[j]);
    FormatInjectiveSk(q.pk, u, t);
    KeptIsGenuine(st, q, a);
    RunOrder(st, q, j, KeptIndex(w, a), u, Kept(w)[a].sk);
  }

  lemma NothingElseLeftOut(st: Store, q: Query, sk: Bytes)
    requires WellKeyed(st) && NulFree(q.pk) && Total(q.cond) && Candidate(st, q, sk, Holds)
    ensures List(st, q).Listed? && LeftOutRightly(st, q, List(st, q).records, sk)
  {
    CleanOutcome(st, q);
    var pool, rs := Kept(Pool(st, q)), List(st, q).records;
    var a := PassingIsKept(st, q, sk);
    if a < |pool| && pool[a].sk == sk {
      if a < |rs| {
        assert rs[a].sk == sk;
      } else {
        forall b | 0 <= b < |rs|
          ensures Less(rs[b].sk, sk)
        {
          KeptAscends(st, q, b, a);
        }
      }
    }
  }

  lemma ListedAscends(st: Store, q: Query)
    requires WellKeyed(st) && NulFree(q.pk) && Total(q.cond)
    ensures List(st, q).Listed? && List(st, q).records <= Kept(Pool(st, q))
    ensures forall a, b :: 0 <= a < b < |List(st, q).records| ==>
            Less(List(st, q).records[a].sk, List(st, q).records[b].sk)
  {
    CleanOutcome(st, q);
    forall a, b | 0 <= a < b < |List(st, q).records|
      ensures Less(List(st, q).records[a].sk, List(st, q).records[b].sk)
    {
      KeptAscends(st, q, a, b);
    }
  }

  /** On a well-keyed store and a condition that always evaluates, a listing never fails, and it answers its query. */
  lemma ListAnswers(st: Store, q: Query)
    requires WellKeyed(st) && NulFree(q.pk) && Total(q.cond)
    ensures List(st, q).Listed? && Answers(st, q, List(st, q).records)
  {
    CleanOutcome(st, q);
    ListedAscends(st, q);
    var rs := List(st, q).records;
    forall a | 0 <= a < |rs|
      ensures Genuine(st, q, rs[a])
    {
      KeptIsGenuine(st, q, a);
    }
    forall sk | Candidate(st, q, sk, Holds)
      ensures LeftOutRightly(st, q, rs, sk)
    {
      NothingElseLeftOut(st, q, sk);
    }
    forall u, a | q.ifStop && Candidate(st, q, u, Fails) && 0 <= a < |rs|
      ensures !Less(u, rs[a].sk)
    {
      FailingStops(st, q, u, a);
    }
  }

  /** The next record of one answer cannot be skipped by another answer that agrees so far. */
  lemma NextIsNotSkipped(st: Store, q: Query, rs: seq<Record>, os: seq<Record>, i: nat)
    requires Answers(st, q, rs) && Answers(st, q, os)
    requires i < |rs| && i <= |os| && rs[..i] == os[..i]
    ensures i < |os| && Leq(os[i].sk, rs[i].sk)
  {
    var sk := rs[i].sk;
    assert Genuine(st, q, rs[i]) && LeftOutRightly(st, q, os, sk);
    forall b | 0 <= b < i
      ensures os[b] == rs[b]
    {
      assert rs[..i][b] == os[..i][b];
    }
    if b :| 0 <= b < |os| && os[b].sk == sk {
      LeqReflexive(sk);
    } else if q.limit != 0 && |os| >= q.limit && forall a :: 0 <= a < |os| ==> Less(os[a].sk, sk) {
      assert i < |os|;
    }
  }

  /** Answering a query leaves no freedom. */
  lemma {:induction false} AnswersAgree(st: Store, q: Query, rs: seq<Record>, os: seq<Record>, i: nat)
    requires Answers(st, q, rs) && Answers(st, q, os)
    requires i <= |rs| && i <= |os| && rs[..i] == os[..i]
    ensures rs == os
    decreases |rs| - i
  {
    if i < |rs| {
      NextIsNotSkipped(st, q, rs, os, i);
      NextIsNotSkipped(st, q, os, rs, i);
      LeqAntisymmetric(rs[i].sk, os[i].sk);
      assert Genuine(st, q, rs[i]) && Genuine(st, q, os[i]);
      assert rs[..i + 1] == rs[..i] + [rs[i]] && os[..i + 1] == os[..i] + [os[i]];
      AnswersAgree(st, q, rs, os, i + 1);
    } else if i < |os| {
      NextIsNotSkipped(st, q, os, rs, i);
    } else {
      assert rs == rs[..i] && os == os[..i];
    }
  }

  /** A listing is the one answer to its query. */
  lemma ListIsTheAnswer(st: Store, q: Query, rs: seq<Record>)
    requires WellKeyed(st) && NulFree(q.pk) && Total(q.cond)
    ensures List(st, q) == Listed(rs) <==> Answers(st, q, rs)
  {
    ListAnswers(st, q);
    if Answers(st, q, rs) {
      AnswersAgree(st, q, rs, List(st, q).records, 0);
    }
  }

  // When exactly a listing fails.

  /** A key that splits in two, whose sort key is not the prefix itself, and whose record has this verdict. */
  ghost predicate CandidateKey(st: Store, q: Query, k: Bytes, verdict: Verdict)
    requires k in st && q.Prefix() <= k
  {
    match SplitRecordKey(k)
    case InvalidKey => false
    case Parts(pk, sk) => sk != q.skPrefix && Judged(q, pk, sk, st[k], verdict)
  }

  /** A key is broken when it does not split in two, or when the condition cannot be evaluated on its record. */
  ghost predicate BrokenKey(st: Store, q: Query, k: Bytes)
    requires k in st && q.Prefix() <= k
  {
    SplitRecordKey(k) == InvalidKey || CandidateKey(st, q, k, Error)
  }

  lemma BrokenIff(st: Store, q: Query, k: Bytes)
    requires k in st && q.Prefix() <= k
    ensures VisitKey(st, q, k) == Broken <==> BrokenKey(st, q, k)
    ensures VisitKey(st, q, k) == Drop <==> CandidateKey(st, q, k, Fails)
    ensures VisitKey(st, q, k).Keep? <==> CandidateKey(st, q, k, Holds)
  {
  }

  ghost predicate ErrorAt(v: seq<Visit>, i: nat, limit: int, ifStop: bool) {
    && i < |v| && v[i] == Broken
    && (ifStop ==> forall j :: 0 <= j < i ==> v[j] != Drop)
    && (limit == 0 || |Kept(v[..i])| < limit)
  }

  lemma OutcomeFailsIff(v: seq<Visit>, limit: int, ifStop: bool)
    ensures Outcomes(v, limit, ifStop) == ListError <==> exists i: nat :: ErrorAt(v, i, limit, ifStop)
  {
    hide Kept;
    var broken := First(v, Broken);
    var stop := if ifStop then First(v, Drop) else |v|;
    if Outcomes(v, limit, ifStop) == ListError {
      assert ErrorAt(v, broken, limit, ifStop);
    }
    forall i: nat | ErrorAt(v, i, limit, ifStop)
      ensures Outcomes(v, limit, ifStop) == ListError
    {
      assert broken <= i < stop || (broken <= i && stop == |v|);
      assert v[..i] == v[..broken] + v[broken..i];
      KeptConcat(v[..broken], v[broken..i]);
    }
  }

  /** The records that a listing keeps before it comes to k. */
  ghost function KeptBefore(st: Store, q: Query, k: Bytes): set<Bytes> {
    set l | l in st && q.Prefix() <= l && Less(l, k) && CandidateKey(st, q, l, Holds)
  }

  /** The listing comes to a broken key k, neither stopped by a record before it nor full. */
  ghost predicate FailsAt(st: Store, q: Query, k: Bytes) {
    && k in st && q.Prefix() <= k && BrokenKey(st, q, k)
    && (q.ifStop ==> forall l :: l in st && q.Prefix() <= l && Less(l, k) ==> !CandidateKey(st, q, l, Fails))
    && (q.limit == 0 || |KeptBefore(st, q, k)| < q.limit)
  }

  /** The keys of the run before position i are those below the key there. */
  lemma RunBefore(st: Store, q: Query, i: nat, l: Bytes)
    requires i < |Range(st, q)|
    ensures l in Range(st, q)[..i] <==> l in st && q.Prefix() <= l && Less(l, Range(st, q)[i])
  {
    hide Range;
    RangeAscends(st, q);
    var run := Range(st, q);
    assert forall j :: 0 <= j < |run| ==> run[j] in run;
    if l in run && Less(l, run[i]) {
      var j :| 0 <= j < |run| && run[j] == l;
      if i < j {
        LeqAntisymmetric(run[i], run[j]);
      }
      assert j < i;
      assert run[..i][j] == l;
    }
  }

  ghost function KeptKeys(keys: seq<Bytes>, v: seq<Visit>): set<Bytes>
    requires |keys| == |v|
  {
    set i: nat | i < |keys| && v[i].Keep? :: keys[i]
  }

  lemma KeptKeysNext(keys: seq<Bytes>, v: seq<Visit>, n: nat)
    requires |keys| == |v| == n + 1
    ensures KeptKeys(keys, v) == KeptKeys(keys[..n], v[..n]) + if v[n].Keep? then {keys[n]} else {}
  {
    forall k
      ensures k in KeptKeys(keys, v) <==> k in KeptKeys(keys[..n], v[..n]) || (v[n].Keep? && k == keys[n])
    {
      if k in KeptKeys(keys, v) {
        var i: nat :| i <= n && v[i].Keep? && keys[i] == k;
        assert i < n ==> keys[..n][i] == k && v[..n][i].Keep?;
      }
      if k in KeptKeys(keys[..n], v[..n]) {
        var i: nat :| i < n && v[..n][i].Keep? && keys[..n][i] == k;
        assert v[i].Keep? && keys[i] == k;
      }
    }
  }

  lemma {:induction false} KeptCount(keys: seq<Bytes>, v: seq<Visit>)
    requires |keys| == |v| && Ascending(keys)
    ensures |KeptKeys(keys, v)| == |Kept(v)|
    decreases |v|
  {
    hide Kept, KeptKeys, Leq;
    if v == [] {
      NothingKept();
      NoKeptKeys();
    } else {
      var n := |v| - 1;
      KeptCount(keys[..n], v[..n]);
      KeptNext(v, n);
      KeptKeysNext(keys, v, n);
      LastIsNew(keys, v, n);
      assert v[..n + 1] == v;
    }
  }

  lemma NoKeptKeys()
    ensures KeptKeys([], []) == {}
  {
  }

  lemma LastIsNew(keys: seq<Bytes>, v: seq<Visit>, n: nat)
    requires |keys| == |v| == n + 1 && Ascending(keys)
    ensures keys[n] !in KeptKeys(keys[..n], v[..n])
  {
    assert forall i :: 0 <= i < n ==> Less(keys[i], keys[n]);
  }

  lemma KeptBeforePosition(st: Store, q: Query, i: nat)
    requires i < |Range(st, q)|
    ensures |KeptBefore(st, q, Range(st, q)[i])| == |Kept(Visits(st, q, Range(st, q))[..i])|
  {
    hide VisitKey, CandidateKey, Kept, Range, Less;
    var run := Range(st, q);
    var v := Visits(st, q, run);
    RangeAscends(st, q);
    assert Ascending(run[..i]);
    KeptCount(run[..i], v[..i]);
    forall l
      ensures l in KeptBefore(st, q, run[i]) <==> l in KeptKeys(run[..i], v[..i])
    {
      RunBefore(st, q, i, l);
      if l in st && q.Prefix() <= l {
        BrokenIff(st, q, l);
      }
      if l in KeptBefore(st, q, run[i]) {
        var j: nat :| j < i && run[..i][j] == l;
        assert v[..i][j] == VisitKey(st, q, l);
      }
      if l in KeptKeys(run[..i], v[..i]) {
        var j: nat :| j < i && v[..i][j].Keep? && run[..i][j] == l;
        assert run[j] in run && run[..i][j] in run[..i];
      }
    }
    assert KeptBefore(st, q, run[i]) == KeptKeys(run[..i], v[..i]);
  }

  lemma NothingKept()
    ensures Kept([]) == []
  {
  }

  lemma FailsAtPosition(st: Store, q: Query, i: nat)
    requires i < |Range(st, q)|
    ensures FailsAt(st, q, Range(st, q)[i]) <==> ErrorAt(Visits(st, q, Range(st, q)), i, q.limit, q.ifStop)
  {
    hide VisitKey, CandidateKey, BrokenKey, Kept, Range, Less;
    var run := Range(st, q);
    var v := Visits(st, q, run);
    assert run[i] in run;
    forall l | l in st && q.Prefix() <= l
      ensures VisitKey(st, q, l) == Broken <==> BrokenKey(st, q, l)
      ensures VisitKey(st, q, l) == Drop <==> CandidateKey(st, q, l, Fails)
    {
      BrokenIff(st, q, l);
    }
    forall l
      ensures l in run[..i] <==> l in st && q.Prefix() <= l && Less(l, run[i])
    {
      RunBefore(st, q, i, l);
    }
    KeptBeforePosition(st, q, i);
    assert forall j :: 0 <= j < i ==> run[..i][j] == run[j] && run[j] in run[..i];
  }

  /** A listing fails exactly when it comes to a broken key: no record before that key stops it, and the records kept
      before that key do not reach the limit. */
  lemma ListFailsIff(st: Store, q: Query)
    ensures List(st, q) == ListError <==> exists k :: FailsAt(st, q, k)
  {
    hide FailsAt, ErrorAt, Outcomes, Range;
    var run := Range(st, q);
    var v := Visits(st, q, run);
    OutcomeFailsIff(v, q.limit, q.ifStop);
    forall i: nat | i < |run|
      ensures FailsAt(st, q, run[i]) <==> ErrorAt(v, i, q.limit, q.ifStop)
    {
      FailsAtPosition(st, q, i);
    }
    forall k | FailsAt(st, q, k)
      ensures k in run
    {
      FailsInRange(st, q, k);
    }
    forall i: nat | ErrorAt(v, i, q.limit, q.ifStop)
      ensures i < |run|
    {
      ErrorInRange(v, i, q.limit, q.ifStop);
    }
  }

  /** The result is the one answer to the query, where that is defined, and an error exactly when it has to be. */
  ghost predicate IsListing(st: Store, q: Query, result: ListResult) {
    && (WellKeyed(st) && NulFree(q.pk) && Total(q.cond) ==> result.Listed? && Answers(st, q, result.records))
    && (result == ListError <==> exists k :: FailsAt(st, q, k))
  }

  lemma ListIsListing(st: Store, q: Query)
    ensures IsListing(st, q, List(st, q))
  {
    hide WellKeyed, NulFree, Total, Answers, FailsAt, List;
    ListFailsIff(st, q);
    if WellKeyed(st) && NulFree(q.pk) && Total(q.cond) {
      ListAnswers(st, q);
    }
  }

  lemma FailsInRange(st: Store, q: Query, k: Bytes)
    requires FailsAt(st, q, k)
    ensures k in Range(st, q)
  {
  }

  lemma ErrorInRange(v: seq<Visit>, i: nat, limit: int, ifStop: bool)
    requires ErrorAt(v, i, limit, ifStop)
    ensures i < |v|
  {
  }

  /** In particular, a full listing whose condition always evaluates fails exactly when a key under its prefix does not
      split into two pieces, because its sort key, or its partition key, holds a NUL. */
  lemma FullListingFailsIff(st: Store, q: Query)
    requires q.limit == 0 && !q.ifStop && Total(q.cond)
    ensures List(st, q) == ListError <==> exists k :: k in st && q.Prefix() <= k && SplitRecordKey(k) == InvalidKey
  {
    hide VisitKey, List;
    ListFailsIff(st, q);
    forall k | k in st && q.Prefix() <= k
      ensures FailsAt(st, q, k) <==> SplitRecordKey(k) == InvalidKey
    {
      BrokenIff(st, q, k);
    }
  }

  /** Logs of NUL-free keys materialise to well-keyed stores. */
  lemma {:induction false} FoldIsWellKeyed(st: Store, log: seq<Mutation>)
    requires WellKeyed(st) && forall i :: 0 <= i < |log| ==> NulFree(log[i].pk) && NulFree(log[i].sk)
    ensures WellKeyed(Fold(st, log))
    decreases log
  {
    if log != [] {
      assert WellFormedKey(log[0].Key());
      FoldIsWellKeyed(Apply(st, log[0]), log[1..]);
    }
  }
}
