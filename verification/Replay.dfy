/** What happens when a stretch of the log is applied twice. */
module Replay {
  import opened ByteStrings
  import opened StorageKeys
  import opened Records

  predicate Unconditional(m: Mutation) {
    m.cond.None? && m.op != Unknown
  }

  predicate ConditionalDelete(m: Mutation) {
    m.op == Delete && m.cond.Some?
  }

  // What the guards of a stretch say, leaving out its documents, times and conditions.

  datatype Kind = PutIf | PutAlways | DeleteIf | DeleteAlways

  datatype Slot = Slot(pk: Bytes, sk: Bytes, kind: Kind) {
    function Key(): Bytes {
      FormatRecordKey(pk, sk)
    }
  }

  function SlotOf(m: Mutation): Slot
    requires m.op != Unknown
  {
    Slot(m.pk, m.sk, match m.op
                     case Put => if m.cond.Some? then PutIf else PutAlways
                     case Delete => if m.cond.Some? then DeleteIf else DeleteAlways)
  }

  /** The plan of a stretch. An unknown operation changes nothing and has no place in it. */
  function PlanOf(w: seq<Mutation>): seq<Slot> {
    if w == [] then [] else (if w[0].op == Unknown then [] else [SlotOf(w[0])]) + PlanOf(w[1..])
  }

  /** The kinds of the mutations of one record. */
  function KindsAt(plan: seq<Slot>, k: Bytes): seq<Kind> {
    if plan == [] then [] else (if plan[0].Key() == k then [plan[0].kind] else []) + KindsAt(plan[1..], k)
  }

  /** The conditional deletes are the block [i, j), and there is an unconditional put before and after it. */
  predicate Bracketed(s: seq<Kind>, i: nat, j: nat)
    requires i <= j <= |s|
  {
    && PutAlways in s[..i] && DeleteIf !in s[..i]
    && (forall x :: x in s[i..j] ==> x == DeleteIf)
    && DeleteIf !in s[j..] && PutAlways in s[j..]
  }

  ghost predicate HasBracket(s: seq<Kind>) {
    exists i: nat, j: nat :: i <= j <= |s| && Bracketed(s, i, j)
  }

  /** The guards of one record's mutations make it safe to apply them twice. */
  ghost predicate Replayable(s: seq<Kind>) {
    || |s| <= 1
    || DeleteAlways in s
    || (forall x :: x in s ==> x == DeleteIf)
    || (PutAlways in s && DeleteIf !in s)
    || HasBracket(s)
  }

  ghost predicate SettledPlan(plan: seq<Slot>) {
    forall k :: Replayable(KindsAt(plan, k))
  }

  ghost predicate Settled(w: seq<Mutation>) {
    SettledPlan(PlanOf(w))
  }

  lemma {:induction false} PlanOfConcat(a: seq<Mutation>, b: seq<Mutation>)
    ensures PlanOf(a + b) == PlanOf(a) + PlanOf(b)
  {
    hide SlotOf;
    if a == [] {
      assert a + b == b;
    } else {
      assert (a + b)[1..] == a[1..] + b;
      PlanOfConcat(a[1..], b);
      var head := if a[0].op == Unknown then [] else [SlotOf(a[0])];
      assert PlanOf(a + b) == head + PlanOf(a[1..] + b);
      assert PlanOf(a) == head + PlanOf(a[1..]);
    }
  }

  lemma {:induction false} KindsAtConcat(a: seq<Slot>, b: seq<Slot>, k: Bytes)
    ensures KindsAt(a + b, k) == KindsAt(a, k) + KindsAt(b, k)
  {
    hide FormatRecordKey;
    if a == [] {
      assert a + b == b;
    } else {
      assert (a + b)[1..] == a[1..] + b;
      KindsAtConcat(a[1..], b, k);
      var head := if a[0].Key() == k then [a[0].kind] else [];
      assert KindsAt(a + b, k) == head + KindsAt(a[1..] + b, k);
      assert KindsAt(a, k) == head + KindsAt(a[1..], k);
    }
  }

  // The mutations of one record, one after the other.

  function Run(c: Cell, w: seq<Mutation>): Cell
    decreases w
  {
    if w == [] then c else Run(ApplyCell(c, w[0]).cell, w[1..])
  }

  lemma {:induction false} RunConcat(c: Cell, a: seq<Mutation>, b: seq<Mutation>)
    ensures Run(c, a + b) == Run(Run(c, a), b)
    decreases a
  {
    hide ApplyCell;
    if a == [] {
      assert a + b == b;
    } else {
      assert (a + b)[1..] == a[1..] + b;
      RunConcat(ApplyCell(c, a[0]).cell, a[1..], b);
    }
  }

  /** The mutations of record k in a stretch. */
  function At(w: seq<Mutation>, k: Bytes): (r: seq<Mutation>) {
    if w == [] then [] else (if w[0].op != Unknown && w[0].Key() == k then [w[0]] else []) + At(w[1..], k)
  }

  lemma {:induction false} FoldCellIsRun(c: Cell, w: seq<Mutation>, k: Bytes)
    ensures FoldCell(c, w, k) == Run(c, At(w, k))
    decreases w
  {
    hide FormatRecordKey;
    if w != [] {
      var c' := if w[0].Key() == k then ApplyCell(c, w[0]).cell else c;
      FoldCellIsRun(c', w[1..], k);
      if w[0].op != Unknown && w[0].Key() == k {
        assert At(w, k)[1..] == At(w[1..], k);
      } else {
        assert At(w, k) == At(w[1..], k);
      }
    }
  }

  predicate AllKnown(w: seq<Mutation>) {
    forall i :: 0 <= i < |w| ==> w[i].op != Unknown
  }

  function Kinds(w: seq<Mutation>): (s: seq<Kind>)
    requires AllKnown(w)
    ensures |s| == |w| && forall i :: 0 <= i < |w| ==> s[i] == SlotOf(w[i]).kind
  {
    seq(|w|, i requires 0 <= i < |w| => SlotOf(w[i]).kind)
  }

  lemma KindsCons(m: Mutation, w: seq<Mutation>)
    requires m.op != Unknown && AllKnown(w)
    ensures AllKnown([m] + w) && Kinds([m] + w) == [SlotOf(m).kind] + Kinds(w)
  {
    hide SlotOf;
  }

  lemma {:induction false} KindsOfRecord(w: seq<Mutation>, k: Bytes)
    ensures AllKnown(At(w, k)) && Kinds(At(w, k)) == KindsAt(PlanOf(w), k)
    decreases w
  {
    hide FormatRecordKey, AllKnown, Kinds;
    if w == [] {
      NoKinds();
    } else {
      KindsOfRecord(w[1..], k);
      PlanCons(w, k);
      if w[0].op != Unknown && w[0].Key() == k {
        KindsCons(w[0], At(w[1..], k));
      } else {
        assert At(w, k) == At(w[1..], k);
      }
    }
  }

  lemma NoKinds()
    ensures AllKnown([]) && Kinds([]) == []
  {
  }

  lemma PlanCons(w: seq<Mutation>, k: Bytes)
    requires w != []
    ensures KindsAt(PlanOf(w), k) ==
            (if w[0].op != Unknown && w[0].Key() == k then [SlotOf(w[0]).kind] else []) + KindsAt(PlanOf(w[1..]), k)
  {
    hide FormatRecordKey;
    if w[0].op == Unknown {
      assert PlanOf(w) == PlanOf(w[1..]);
    } else {
      assert PlanOf(w)[0] == SlotOf(w[0]) && PlanOf(w)[1..] == PlanOf(w[1..]);
    }
  }

  predicate Has(w: seq<Mutation>, op: Operation) {
    exists i :: 0 <= i < |w| && w[i].op == op
  }

  /** An unconditional put. */
  predicate HasPut(w: seq<Mutation>) {
    exists i :: 0 <= i < |w| && w[i].op == Put && w[i].cond.None?
  }

  lemma Shift(w: seq<Mutation>)
    requires w != [] && AllKnown(w)
    ensures AllKnown(w[1..])
    ensures Has(w, Delete) <==> w[0].op == Delete || Has(w[1..], Delete)
    ensures HasPut(w) <==> (w[0].op == Put && w[0].cond.None?) || HasPut(w[1..])
  {
    assert forall i :: 0 <= i < |w[1..]| ==> w[1..][i] == w[i + 1];
    assert forall i :: 0 < i < |w| ==> w[i] == w[1..][i - 1];
  }

  /** A mutation that is applied twice in a row is applied once. */
  lemma ApplyTwice(c: Cell, m: Mutation)
    ensures ApplyCell(ApplyCell(c, m).cell, m).cell == ApplyCell(c, m).cell
  {
  }

  /** An unconditional delete forgets what was there before. */
  lemma {:induction false} DeleteForgets(c: Cell, d: Cell, w: seq<Mutation>, i: nat)
    requires i < |w| && w[i].op == Delete && w[i].cond.None?
    ensures Run(c, w) == Run(d, w)
    decreases w
  {
    if i > 0 {
      DeleteForgets(ApplyCell(c, w[0]).cell, ApplyCell(d, w[0]).cell, w[1..], i - 1);
    }
  }

  /** Conditional deletes leave a record as it is or remove it. */
  lemma {:induction false} DeletesOnly(c: Cell, w: seq<Mutation>)
    requires forall i :: 0 <= i < |w| ==> ConditionalDelete(w[i])
    ensures Run(c, w) == c || Run(c, w) == None
    ensures Run(None, w) == None
    decreases w
  {
    if w != [] {
      assert forall i :: 0 <= i < |w[1..]| ==> w[1..][i] == w[i + 1];
      DeletesOnly(ApplyCell(c, w[0]).cell, w[1..]);
    }
  }

  /** Without deletes, a record keeps its creation time. */
  lemma {:induction false} CreationKept(c: Cell, w: seq<Mutation>)
    requires AllKnown(w) && !Has(w, Delete) && c.Some?
    ensures Run(c, w).Some? && Run(c, w).value.createdAt == c.value.createdAt
    decreases w
  {
    if w != [] {
      Shift(w);
      CreationKept(ApplyCell(c, w[0]).cell, w[1..]);
    }
  }

  /** Puts with an unconditional one among them forget everything of a record but its creation time. */
  lemma {:induction false} OnlyCreationMatters(c: Cell, d: Cell, w: seq<Mutation>)
    requires AllKnown(w) && !Has(w, Delete) && HasPut(w)
    requires c.Some? && d.Some? && c.value.createdAt == d.value.createdAt
    ensures Run(c, w) == Run(d, w)
    decreases w
  {
    Shift(w);
    if w[0].cond.Some? {
      OnlyCreationMatters(ApplyCell(c, w[0]).cell, ApplyCell(d, w[0]).cell, w[1..]);
    }
  }

  lemma {:induction false} PutsCreate(c: Cell, w: seq<Mutation>)
    requires AllKnown(w) && !Has(w, Delete) && HasPut(w)
    ensures Run(c, w).Some?
    decreases w
  {
    Shift(w);
    if w[0].cond.None? {
      CreationKept(ApplyCell(c, w[0]).cell, w[1..]);
    } else {
      PutsCreate(ApplyCell(c, w[0]).cell, w[1..]);
    }
  }

  /** Started from nothing, they end as they would from any record with the creation time they arrive at. */
  lemma {:induction false} FromNothing(d: Cell, w: seq<Mutation>)
    requires AllKnown(w) && !Has(w, Delete) && HasPut(w)
    requires d.Some? && Run(None, w).Some? && Run(None, w).value.createdAt == d.value.createdAt
    ensures Run(None, w) == Run(d, w)
    decreases w
  {
    Shift(w);
    var c1, d1, rest := ApplyCell(None, w[0]).cell, ApplyCell(d, w[0]).cell, w[1..];
    if c1.None? {
      FromNothing(d1, rest);
    } else {
      CreationKept(c1, rest);
      if w[0].cond.Some? {
        OnlyCreationMatters(c1, d1, rest);
      }
    }
  }

  /** Puts with an unconditional one among them end the same from any record that was created when their result was. */
  lemma PutsRepeat(c: Cell, d: Cell, w: seq<Mutation>)
    requires AllKnown(w) && !Has(w, Delete) && HasPut(w)
    requires d.Some? && Run(c, w).Some? && Run(c, w).value.createdAt == d.value.createdAt
    ensures Run(d, w) == Run(c, w)
  {
    if c.Some? {
      CreationKept(c, w);
      OnlyCreationMatters(d, c, w);
    } else {
      FromNothing(d, w);
    }
  }

  /** Puts, conditional deletes, puts. */
  lemma BracketRepeats(c: Cell, pre: seq<Mutation>, mid: seq<Mutation>, post: seq<Mutation>)
    requires AllKnown(pre) && !Has(pre, Delete) && HasPut(pre)
    requires forall i :: 0 <= i < |mid| ==> ConditionalDelete(mid[i])
    requires AllKnown(post) && !Has(post, Delete) && HasPut(post)
    ensures var w := pre + mid + post; Run(Run(c, w), w) == Run(c, w)
  {
    hide ApplyCell;
    var w := pre + mid + post;
    var a := Run(c, pre);
    var b := Run(a, mid);
    var e := Run(b, post);
    RunOfThree(c, pre, mid, post);
    RunOfThree(e, pre, mid, post);
    PutsCreate(c, pre);
    PutsCreate(b, post);
    DeletesOnly(a, mid);
    CreationKept(e, pre);
    var a' := Run(e, pre);
    if b == a {
      CreationKept(a, post);
      PutsRepeat(c, e, pre);
    } else {
      DeletesOnly(a', mid);
      if Run(a', mid) == a' {
        PutsRepeat(b, a', post);
      }
    }
  }

  lemma RunOfThree(c: Cell, a: seq<Mutation>, b: seq<Mutation>, d: seq<Mutation>)
    ensures Run(c, a + b + d) == Run(Run(Run(c, a), b), d)
  {
    RunConcat(c, a + b, d);
    RunConcat(c, a, b);
  }

  lemma DeleteKinds(w: seq<Mutation>)
    requires AllKnown(w)
    ensures Has(w, Delete) <==> DeleteIf in Kinds(w) || DeleteAlways in Kinds(w)
  {
    if Has(w, Delete) {
      var x :| 0 <= x < |w| && w[x].op == Delete;
      assert Kinds(w)[x] == DeleteIf || Kinds(w)[x] == DeleteAlways;
    }
  }

  lemma PutKinds(w: seq<Mutation>)
    requires AllKnown(w)
    ensures HasPut(w) <==> PutAlways in Kinds(w)
  {
    if HasPut(w) {
      var x :| 0 <= x < |w| && w[x].op == Put && w[x].cond.None?;
      assert Kinds(w)[x] == PutAlways;
    }
  }

  lemma KindIn(w: seq<Mutation>, i: nat, j: nat)
    requires AllKnown(w) && i <= j <= |w|
    ensures AllKnown(w[i..j]) && Kinds(w[i..j]) == Kinds(w)[i..j]
    ensures Has(w[i..j], Delete) <==> DeleteIf in Kinds(w)[i..j] || DeleteAlways in Kinds(w)[i..j]
    ensures HasPut(w[i..j]) <==> PutAlways in Kinds(w)[i..j]
  {
    hide Has, HasPut, SlotOf;
    assert Kinds(w[i..j]) == Kinds(w)[i..j];
    DeleteKinds(w[i..j]);
    PutKinds(w[i..j]);
  }

  /** Replayable kinds of one record's mutations: applying them twice is applying them once, from any state. */
  lemma ReplayRun(c: Cell, w: seq<Mutation>)
    requires AllKnown(w) && Replayable(Kinds(w))
    ensures Run(Run(c, w), w) == Run(c, w)
  {
    hide ApplyCell;
    var s := Kinds(w);
    assert s[0..|s|] == s && w[0..|w|] == w;
    KindIn(w, 0, |w|);
    if DeleteAlways in s {
      var i :| 0 <= i < |s| && s[i] == DeleteAlways;
      DeleteForgets(Run(c, w), c, w, i);
    } else if |w| <= 1 {
      if w != [] {
        assert Run(c, w) == Run(ApplyCell(c, w[0]).cell, []);
        ApplyTwice(c, w[0]);
      }
    } else if forall x :: x in s ==> x == DeleteIf {
      assert forall i :: 0 <= i < |w| ==> s[i] in s;
      DeletesOnly(c, w);
    } else if PutAlways in s && DeleteIf !in s {
      PutsCreate(c, w);
      if c.Some? {
        CreationKept(c, w);
      }
      PutsRepeat(c, Run(c, w), w);
    } else {
      var i: nat, j: nat :| i <= j <= |s| && Bracketed(s, i, j);
      BracketParts(w, i, j);
      BracketRepeats(c, w[..i], w[i..j], w[j..]);
    }
  }

  lemma AllDeletes(w: seq<Mutation>)
    requires AllKnown(w) && forall x :: x in Kinds(w) ==> x == DeleteIf
    ensures forall i :: 0 <= i < |w| ==> ConditionalDelete(w[i])
  {
    forall i | 0 <= i < |w|
      ensures ConditionalDelete(w[i])
    {
      assert Kinds(w)[i] in Kinds(w);
      assert SlotOf(w[i]).kind == DeleteIf;
    }
  }

  lemma NoDeletesIn(w: seq<Mutation>, i: nat, j: nat)
    requires AllKnown(w) && DeleteAlways !in Kinds(w) && i <= j <= |w|
    requires PutAlways in Kinds(w)[i..j] && DeleteIf !in Kinds(w)[i..j]
    ensures AllKnown(w[i..j]) && !Has(w[i..j], Delete) && HasPut(w[i..j])
  {
    hide Has, HasPut, SlotOf;
    KindIn(w, i, j);
    assert forall x :: x in Kinds(w)[i..j] ==> x in Kinds(w);
  }

  lemma BracketParts(w: seq<Mutation>, i: nat, j: nat)
    requires AllKnown(w) && DeleteAlways !in Kinds(w) && i <= j <= |w| && Bracketed(Kinds(w), i, j)
    ensures AllKnown(w[..i]) && !Has(w[..i], Delete) && HasPut(w[..i])
    ensures forall x :: 0 <= x < |w[i..j]| ==> ConditionalDelete(w[i..j][x])
    ensures AllKnown(w[j..]) && !Has(w[j..], Delete) && HasPut(w[j..])
    ensures w == w[..i] + w[i..j] + w[j..]
  {
    hide Has, HasPut, SlotOf, ConditionalDelete, AllKnown;
    var s := Kinds(w);
    assert w[0..i] == w[..i] && w[j..|w|] == w[j..] && s[0..i] == s[..i] && s[j..|s|] == s[j..];
    NoDeletesIn(w, 0, i);
    NoDeletesIn(w, j, |w|);
    KindIn(w, i, j);
    AllDeletes(w[i..j]);
  }

  /** Replaying a settled window twice is replaying it once, from any store. */
  lemma ReplayTwice(st: Store, w: seq<Mutation>)
    requires Settled(w)
    ensures Fold(Fold(st, w), w) == Fold(st, w)
  {
    forall k
      ensures CellAt(Fold(Fold(st, w), w), k) == CellAt(Fold(st, w), k)
    {
      ReplayCellTwice(CellAt(st, k), w, k);
      FoldIsCellwise(Fold(st, w), w, k);
      FoldIsCellwise(st, w, k);
    }
    StoreExtensional(Fold(Fold(st, w), w), Fold(st, w));
  }

  lemma ReplayCellTwice(c: Cell, w: seq<Mutation>, k: Bytes)
    requires Replayable(KindsAt(PlanOf(w), k))
    ensures FoldCell(FoldCell(c, w, k), w, k) == FoldCell(c, w, k)
  {
    hide Replayable, ApplyCell;
    KindsOfRecord(w, k);
    FoldCellIsRun(c, w, k);
    FoldCellIsRun(FoldCell(c, w, k), w, k);
    ReplayRun(c, At(w, k));
  }

  lemma {:induction false} KindsOfUnconditional(w: seq<Mutation>, k: Bytes)
    requires forall i :: 0 <= i < |w| ==> Unconditional(w[i])
    ensures forall x :: x in KindsAt(PlanOf(w), k) ==> x == PutAlways || x == DeleteAlways
    decreases w
  {
    if w != [] {
      assert forall i :: 0 <= i < |w[1..]| ==> w[1..][i] == w[i + 1];
      assert Unconditional(w[0]);
      KindsOfUnconditional(w[1..], k);
      assert PlanOf(w)[1..] == PlanOf(w[1..]);
    }
  }

  /** Any window of unconditional mutations is settled. */
  lemma UnconditionalIsSettled(w: seq<Mutation>)
    requires forall i :: 0 <= i < |w| ==> Unconditional(w[i])
    ensures Settled(w)
  {
    forall k
      ensures Replayable(KindsAt(PlanOf(w), k))
    {
      KindsOfUnconditional(w, k);
      var s := KindsAt(PlanOf(w), k);
      assert s != [] ==> s[0] in s;
    }
  }

  /** Conditional deletes at its end do not make a plan safe. */
  lemma ReplayablePrefix(s: seq<Kind>, ds: seq<Kind>)
    requires Replayable(s + ds) && forall x :: x in ds ==> x == DeleteIf
    ensures Replayable(s)
  {
    assert forall x :: x in s ==> x in s + ds;
    assert forall x :: x in s + ds ==> x in s || x in ds;
    if ds == [] {
      assert s + ds == s;
    } else {
      assert (s + ds)[|s + ds| - 1] == DeleteIf by {
        assert ds[|ds| - 1] in ds;
      }
      forall i: nat, j: nat | i <= j <= |s + ds|
        ensures !Bracketed(s + ds, i, j)
      {
        var post := (s + ds)[j..];
        assert post != [] ==> post[|post| - 1] in post;
      }
    }
  }

  lemma {:induction false} KindsOfDeletes(w: seq<Mutation>, k: Bytes)
    requires forall i :: 0 <= i < |w| ==> ConditionalDelete(w[i])
    ensures forall x :: x in KindsAt(PlanOf(w), k) ==> x == DeleteIf
    decreases w
  {
    if w != [] {
      assert forall i :: 0 <= i < |w[1..]| ==> w[1..][i] == w[i + 1];
      assert ConditionalDelete(w[0]);
      KindsOfDeletes(w[1..], k);
      assert PlanOf(w)[1..] == PlanOf(w[1..]);
    }
  }

  /** A settled window is settled without the conditional deletes at its end. */
  lemma SettledPrefix(w: seq<Mutation>, rest: seq<Mutation>)
    requires Settled(w + rest) && forall i :: 0 <= i < |rest| ==> ConditionalDelete(rest[i])
    ensures Settled(w)
  {
    hide Replayable;
    forall k
      ensures Replayable(KindsAt(PlanOf(w), k))
    {
      PlanOfConcat(w, rest);
      KindsAtConcat(PlanOf(w), PlanOf(rest), k);
      KindsOfDeletes(rest, k);
      assert Replayable(KindsAt(PlanOf(w + rest), k));
      ReplayablePrefix(KindsAt(PlanOf(w), k), KindsAt(PlanOf(rest), k));
    }
  }

  // Replay from a name that is older than the content.

  /** Every entry of the stretch was consumed on this store without being recorded or failing:
      it is a conditional delete of an absent key. */
  ghost predicate AllUnrecorded(st: Store, g: seq<Mutation>) {
    forall i :: 0 <= i < |g| ==> OutcomeOf(st, g[i]) == Unrecorded
  }

  lemma {:induction false} UnrecordedFold(st: Store, g: seq<Mutation>)
    requires AllUnrecorded(st, g)
    ensures Fold(st, g) == st
    decreases g
  {
    if g != [] {
      UnappliedIsNoOp(st, g[0]);
      UnrecordedFold(st, g[1..]);
    }
  }

  /** Such a stretch leaves a record alone, or empties a cell that was empty in the store. */
  lemma {:induction false} GapEmpties(c: Cell, st: Store, g: seq<Mutation>, k: Bytes)
    requires AllUnrecorded(st, g)
    ensures FoldCell(c, g, k) == c || (FoldCell(c, g, k) == None && CellAt(st, k) == None)
    decreases g
  {
    if g != [] {
      assert OutcomeOf(st, g[0]) == Unrecorded;
      assert forall i :: 0 <= i < |g[1..]| ==> g[1..][i] == g[i + 1];
      GapEmpties(if g[0].Key() == k then ApplyCell(c, g[0]).cell else c, st, g[1..], k);
    }
  }

  /** The replay of a fuzzy snapshot: its content is st carried over the window w, and its name makes the
      replay start before w, at a stretch g of deletes that found nothing in st. Although g may now find and
      delete keys that w created, replaying g and w leaves the content as it is. */
  lemma ReplayWindow(st: Store, g: seq<Mutation>, w: seq<Mutation>)
    requires AllUnrecorded(st, g) && Settled(w)
    ensures Fold(Fold(st, w), g + w) == Fold(st, w)
  {
    hide Replayable, AllUnrecorded;
    var once := Fold(st, w);
    forall k
      ensures CellAt(Fold(once, g + w), k) == CellAt(once, k)
    {
      var c := CellAt(st, k);
      FoldIsCellwise(st, w, k);
      FoldIsCellwise(once, g + w, k);
      FoldCellConcat(CellAt(once, k), g, w, k);
      GapEmpties(CellAt(once, k), st, g, k);
      ReplayCellTwice(c, w, k);
    }
    StoreExtensional(Fold(once, g + w), once);
  }
}
