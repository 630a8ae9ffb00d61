/** Being settled is exactly what the guards of a stretch can promise: for every other plan there are conditions,
    documents and times with which applying the stretch twice is not applying it once. */
module ReplayLimits {
  import opened ByteStrings
  import opened StorageKeys
  import opened Records
  import opened Replay

  /** No condition of the stretch fails to evaluate, and no operation is unknown. */
  ghost predicate NeverFails(w: seq<Mutation>) {
    forall i :: 0 <= i < |w| ==> CannotFail(w[i])
  }

  ghost predicate CannotFail(m: Mutation) {
    m.op != Unknown && (m.cond.Some? ==> forall r :: m.cond.value(r) != Error)
  }

  /** Every stretch of the plan, whatever its conditions, documents and times, can be applied twice to any store. */
  ghost predicate ReplaySafe(plan: seq<Slot>) {
    forall w, st :: PlanOf(w) == plan ==> Fold(Fold(st, w), w) == Fold(st, w)
  }

  /** The mutations are in the order of their times. */
  ghost predicate InTime(w: seq<Mutation>) {
    forall i, j :: 0 <= i <= j < |w| ==> w[i].tsMs <= w[j].tsMs
  }

  /** No record was created after it was updated, or updated after the stretch began. */
  ghost predicate Older(st: Store, w: seq<Mutation>) {
    forall k, i :: k in st && 0 <= i < |w| ==> st[k].createdAt <= st[k].updatedAt <= w[i].tsMs
  }

  /** The same of the stretches whose times do not decrease, and of stores that are older. */
  ghost predicate ReplaySafeInTime(plan: seq<Slot>) {
    forall w, st :: PlanOf(w) == plan && InTime(w) && Older(st, w) ==> Fold(Fold(st, w), w) == Fold(st, w)
  }

  /** In order, and not before or after the given times. */
  ghost predicate Within(w: seq<Mutation>, from: int, to: int) {
    InTime(w) && forall i :: 0 <= i < |w| ==> from <= w[i].tsMs <= to
  }

  lemma WithinConcat(v: seq<Mutation>, w: seq<Mutation>, from: int, mid: int, to: int)
    requires from <= mid <= to && Within(v, from, mid) && Within(w, mid, to)
    ensures Within(v + w, from, to)
  {
  }

  // Mutations that fill the slots of a plan.

  const NEVER: Condition := (r: CompareRecord) => Fails
  const ON_ABSENT: Condition := (r: CompareRecord) => if r.data == Null then Holds else Fails

  function OnData(json: string): Condition {
    (r: CompareRecord) => if r.data == Document(json) then Holds else Fails
  }

  function OnCreatedAt(tsMs: int): Condition {
    (r: CompareRecord) => if r.createdAt == tsMs then Holds else Fails
  }

  function Filled(slot: Slot, json: string, tsMs: int, cond: Condition): Mutation {
    match slot.kind
    case PutIf => Mutation(Put, slot.pk, slot.sk, Document(json), tsMs, Some(cond))
    case PutAlways => Mutation(Put, slot.pk, slot.sk, Document(json), tsMs, None)
    case DeleteIf => Mutation(Delete, slot.pk, slot.sk, Null, tsMs, Some(cond))
    case DeleteAlways => Mutation(Delete, slot.pk, slot.sk, Null, tsMs, None)
  }

  /** All slots filled alike, writing the document "x". */
  function Segment(slots: seq<Slot>, tsMs: int, cond: Condition): (w: seq<Mutation>)
    ensures |w| == |slots| && forall i :: 0 <= i < |w| ==> w[i] == Filled(slots[i], "x", tsMs, cond)
  {
    seq(|slots|, i requires 0 <= i < |slots| => Filled(slots[i], "x", tsMs, cond))
  }

  lemma FilledTime(slot: Slot, json: string, tsMs: int, cond: Condition)
    ensures Filled(slot, json, tsMs, cond).tsMs == tsMs
  {
  }

  lemma SegmentTime(slots: seq<Slot>, tsMs: int, cond: Condition)
    ensures Within(Segment(slots, tsMs, cond), tsMs, tsMs)
  {
    hide Filled;
    forall i | 0 <= i < |slots|
      ensures Segment(slots, tsMs, cond)[i].tsMs == tsMs
    {
      FilledTime(slots[i], "x", tsMs, cond);
    }
  }

  ghost predicate Fills(w: seq<Mutation>, slots: seq<Slot>) {
    NeverFails(w) && PlanOf(w) == slots
  }

  lemma FillsOne(slot: Slot, json: string, tsMs: int, cond: Condition)
    requires forall r :: cond(r) != Error
    ensures Fills([Filled(slot, json, tsMs, cond)], [slot])
  {
    var m := Filled(slot, json, tsMs, cond);
    assert SlotOf(m) == slot;
    assert PlanOf([m]) == [slot] + PlanOf([]);
    assert CannotFail(m);
  }

  lemma FillsConcat(v: seq<Mutation>, s: seq<Slot>, w: seq<Mutation>, t: seq<Slot>)
    requires Fills(v, s) && Fills(w, t)
    ensures Fills(v + w, s + t)
  {
    hide CannotFail;
    PlanOfConcat(v, w);
  }

  lemma {:induction false} FillsSegment(slots: seq<Slot>, tsMs: int, cond: Condition)
    requires forall r :: cond(r) != Error
    ensures Fills(Segment(slots, tsMs, cond), slots)
    decreases slots
  {
    hide Filled;
    var w := Segment(slots, tsMs, cond);
    if slots != [] {
      FillsSegment(slots[1..], tsMs, cond);
      FillsOne(slots[0], "x", tsMs, cond);
      FillsConcat([w[0]], [slots[0]], Segment(slots[1..], tsMs, cond), slots[1..]);
      assert w == [w[0]] + Segment(slots[1..], tsMs, cond);
      assert slots == [slots[0]] + slots[1..];
    }
  }

  predicate HoldsKind(slots: seq<Slot>, kind: Kind) {
    exists i :: 0 <= i < |slots| && slots[i].kind == kind
  }

  lemma HoldsShift(slots: seq<Slot>, kind: Kind)
    requires slots != []
    ensures HoldsKind(slots, kind) <==> slots[0].kind == kind || HoldsKind(slots[1..], kind)
  {
    assert forall i :: 0 < i < |slots| ==> slots[i] == slots[1..][i - 1];
    assert forall i :: 0 <= i < |slots[1..]| ==> slots[1..][i] == slots[i + 1];
  }

  /** The creation time after a put at this time. */
  function CreatedBy(c: Cell, tsMs: int): int {
    if c.Some? then c.value.createdAt else tsMs
  }

  function Written(c: Cell, tsMs: int): Cell {
    Some(StoredRecord(Document("x"), CreatedBy(c, tsMs), tsMs))
  }

  /** A segment whose conditions never hold is its unconditional put, or nothing. */
  lemma {:induction false} QuietSegment(c: Cell, slots: seq<Slot>, tsMs: int)
    requires !HoldsKind(slots, DeleteAlways)
    ensures Run(c, Segment(slots, tsMs, NEVER)) == if HoldsKind(slots, PutAlways) then Written(c, tsMs) else c
    decreases slots
  {
    var w := Segment(slots, tsMs, NEVER);
    if slots != [] {
      HoldsShift(slots, DeleteAlways);
      HoldsShift(slots, PutAlways);
      var c' := ApplyCell(c, w[0]).cell;
      assert c' == if slots[0].kind == PutAlways then Written(c, tsMs) else c;
      QuietSegment(c', slots[1..], tsMs);
      assert w[1..] == Segment(slots[1..], tsMs, NEVER);
    }
  }

  predicate HoldsPut(slots: seq<Slot>) {
    HoldsKind(slots, PutIf) || HoldsKind(slots, PutAlways)
  }

  predicate AbsentOrX(c: Cell) {
    c.Some? ==> c.value.data == Document("x")
  }

  /** A segment that puts on absence creates what is absent and keeps the creation time of what is there. */
  lemma {:induction false} CreatingSegment(c: Cell, slots: seq<Slot>, tsMs: int)
    requires !HoldsKind(slots, DeleteAlways) && AbsentOrX(c)
    ensures var d := Run(c, Segment(slots, tsMs, ON_ABSENT));
            && AbsentOrX(d)
            && (c.Some? || HoldsPut(slots) ==> d.Some? && d.value.createdAt == CreatedBy(c, tsMs))
    decreases slots
  {
    var w := Segment(slots, tsMs, ON_ABSENT);
    if slots != [] {
      HoldsShift(slots, DeleteAlways);
      HoldsShift(slots, PutAlways);
      HoldsShift(slots, PutIf);
      CreatingSegment(ApplyCell(c, w[0]).cell, slots[1..], tsMs);
      assert w[1..] == Segment(slots[1..], tsMs, ON_ABSENT);
    }
  }

  lemma RunOne(c: Cell, m: Mutation)
    ensures Run(c, [m]) == ApplyCell(c, m).cell
  {
    assert Run(ApplyCell(c, m).cell, []) == ApplyCell(c, m).cell;
  }

  // Windows with one or two slots that differ from the segments around them.

  function Window1(a: seq<Mutation>, m: Mutation, b: seq<Mutation>): seq<Mutation> {
    a + [m] + b
  }

  lemma RunWindow1(c: Cell, a: seq<Mutation>, m: Mutation, b: seq<Mutation>)
    ensures Run(c, Window1(a, m, b)) == Run(ApplyCell(Run(c, a), m).cell, b)
  {
    RunOfThree(c, a, [m], b);
    RunOne(Run(c, a), m);
  }

  function Window2(a: seq<Mutation>, m: Mutation, b: seq<Mutation>, n: Mutation, d: seq<Mutation>): seq<Mutation> {
    Window1(Window1(a, m, b), n, d)
  }

  lemma RunWindow2(c: Cell, a: seq<Mutation>, m: Mutation, b: seq<Mutation>, n: Mutation, d: seq<Mutation>)
    ensures Run(c, Window2(a, m, b, n, d)) == Run(ApplyCell(Run(ApplyCell(Run(c, a), m).cell, b), n).cell, d)
  {
    RunWindow1(c, Window1(a, m, b), n, d);
    RunWindow1(c, a, m, b);
  }

  lemma FillsWindow1(a: seq<Mutation>, m: Mutation, b: seq<Mutation>, slots: seq<Slot>, i: nat)
    requires i < |slots| && Fills(a, slots[..i]) && Fills([m], [slots[i]]) && Fills(b, slots[i + 1..])
    ensures Fills(Window1(a, m, b), slots)
  {
    hide Fills;
    FillsConcat(a, slots[..i], [m], [slots[i]]);
    FillsConcat(a + [m], slots[..i] + [slots[i]], b, slots[i + 1..]);
    assert slots == slots[..i] + [slots[i]] + slots[i + 1..];
  }

  lemma FillsWindow2(a: seq<Mutation>, m: Mutation, b: seq<Mutation>, n: Mutation, d: seq<Mutation>, slots: seq<Slot>,
                     i: nat, j: nat)
    requires i < j < |slots| && Fills(a, slots[..i]) && Fills([m], [slots[i]]) && Fills(b, slots[i + 1..j])
    requires Fills([n], [slots[j]]) && Fills(d, slots[j + 1..])
    ensures Fills(Window2(a, m, b, n, d), slots)
  {
    hide Fills;
    var front := slots[..j];
    assert front[..i] == slots[..i] && front[i] == slots[i] && front[i + 1..] == slots[i + 1..j];
    FillsWindow1(a, m, b, front, i);
    FillsWindow1(Window1(a, m, b), n, d, slots, j);
  }

  lemma TimeOfWindow1(a: seq<Mutation>, m: Mutation, b: seq<Mutation>, from: int, to: int)
    requires from <= m.tsMs <= to && Within(a, from, m.tsMs) && Within(b, m.tsMs, to)
    ensures Within(Window1(a, m, b), from, to)
  {
    WithinConcat(a, [m], from, m.tsMs, m.tsMs);
    WithinConcat(a + [m], b, from, m.tsMs, to);
  }

  lemma Wider(w: seq<Mutation>, from: int, to: int, low: int, high: int)
    requires Within(w, from, to) && low <= from && to <= high
    ensures Within(w, low, high)
  {
  }

  const START := Some(StoredRecord(Document("y"), 0, 0))

  /** The record START, put through this later window twice, is not what it is after once. */
  ghost predicate Breaks(w: seq<Mutation>, slots: seq<Slot>) {
    Fills(w, slots) && Within(w, 1, 3) && Run(Run(START, w), w) != Run(START, w)
  }

  predicate NoFixed(slots: seq<Slot>) {
    !HoldsKind(slots, DeleteAlways) && !HoldsKind(slots, PutAlways)
  }

  /** A conditional delete before the first unconditional put. */
  lemma DeleteThenPut(slots: seq<Slot>, i: nat) returns (w: seq<Mutation>)
    requires i < |slots| && slots[i].kind == DeleteIf && NoFixed(slots[..i])
    requires !HoldsKind(slots[i + 1..], DeleteAlways) && HoldsKind(slots[i + 1..], PutAlways)
    ensures Breaks(w, slots)
  {
    var u, v := slots[..i], slots[i + 1..];
    var m := Filled(slots[i], "x", 1, OnData("x"));
    w := OneSpecial(slots, i, 1, m, 3);
    FillsOne(slots[i], "x", 1, OnData("x"));
    OneSpecialFills(slots, i, 1, m, 3);
    QuietSegment(START, u, 1);
    QuietSegment(START, v, 3);
    RunWindow1(START, Segment(u, 1, NEVER), m, Segment(v, 3, NEVER));
    var once := Written(START, 3);
    QuietSegment(once, u, 1);
    QuietSegment(None, v, 3);
    RunWindow1(once, Segment(u, 1, NEVER), m, Segment(v, 3, NEVER));
    assert Run(once, w) == Written(None, 3) != once;
  }

  /** A conditional delete after the last unconditional put. */
  lemma PutThenDelete(slots: seq<Slot>, i: nat) returns (w: seq<Mutation>)
    requires i < |slots| && slots[i].kind == DeleteIf && NoFixed(slots[i + 1..])
    requires !HoldsKind(slots[..i], DeleteAlways) && HoldsKind(slots[..i], PutAlways)
    ensures Breaks(w, slots)
  {
    var u, v := slots[..i], slots[i + 1..];
    var m := Filled(slots[i], "x", 1, OnCreatedAt(0));
    w := OneSpecial(slots, i, 1, m, 3);
    FillsOne(slots[i], "x", 1, OnCreatedAt(0));
    OneSpecialFills(slots, i, 1, m, 3);
    QuietSegment(START, u, 1);
    QuietSegment(None, v, 3);
    RunWindow1(START, Segment(u, 1, NEVER), m, Segment(v, 3, NEVER));
    QuietSegment(None, u, 1);
    QuietSegment(Written(None, 1), v, 3);
    RunWindow1(None, Segment(u, 1, NEVER), m, Segment(v, 3, NEVER));
    assert Run(START, w) == None && Run(None, w) == Written(None, 1);
  }

  /** Quiet segments around one slot. */
  function OneSpecial(slots: seq<Slot>, i: nat, before: int, m: Mutation, after: int): seq<Mutation>
    requires i < |slots|
  {
    Window1(Segment(slots[..i], before, NEVER), m, Segment(slots[i + 1..], after, NEVER))
  }

  lemma OneSpecialFills(slots: seq<Slot>, i: nat, before: int, m: Mutation, after: int)
    requires i < |slots| && Fills([m], [slots[i]]) && 1 <= before <= m.tsMs <= after <= 3
    ensures Fills(OneSpecial(slots, i, before, m, after), slots) && Within(OneSpecial(slots, i, before, m, after), 1, 3)
  {
    hide Fills, Within;
    var a, b := Segment(slots[..i], before, NEVER), Segment(slots[i + 1..], after, NEVER);
    FillsSegment(slots[..i], before, NEVER);
    FillsSegment(slots[i + 1..], after, NEVER);
    FillsWindow1(a, m, b, slots, i);
    SegmentTime(slots[..i], before, NEVER);
    SegmentTime(slots[i + 1..], after, NEVER);
    Wider(a, before, before, 1, m.tsMs);
    Wider(b, after, after, m.tsMs, 3);
    TimeOfWindow1(a, m, b, 1, 3);
  }

  /** Quiet segments before and after two slots, and a segment of the given condition between them. */
  function TwoSpecial(slots: seq<Slot>, i: nat, j: nat, m: Mutation, cond: Condition, n: Mutation, after: int)
    : seq<Mutation>
    requires i < j < |slots|
  {
    Window2(Segment(slots[..i], 1, NEVER), m, Segment(slots[i + 1..j], n.tsMs, cond), n,
            Segment(slots[j + 1..], after, NEVER))
  }

  lemma TwoSpecialFills(slots: seq<Slot>, i: nat, j: nat, m: Mutation, cond: Condition, n: Mutation, after: int)
    requires i < j < |slots| && Fills([m], [slots[i]]) && Fills([n], [slots[j]]) && forall r :: cond(r) != Error
    requires 1 == m.tsMs <= n.tsMs <= after <= 3
    ensures Fills(TwoSpecial(slots, i, j, m, cond, n, after), slots)
    ensures Within(TwoSpecial(slots, i, j, m, cond, n, after), 1, 3)
  {
    hide Fills, Within;
    var a, b := Segment(slots[..i], 1, NEVER), Segment(slots[i + 1..j], n.tsMs, cond);
    var d := Segment(slots[j + 1..], after, NEVER);
    FillsSegment(slots[..i], 1, NEVER);
    FillsSegment(slots[i + 1..j], n.tsMs, cond);
    FillsSegment(slots[j + 1..], after, NEVER);
    FillsWindow2(a, m, b, n, d, slots, i, j);
    SegmentTime(slots[..i], 1, NEVER);
    SegmentTime(slots[i + 1..j], n.tsMs, cond);
    SegmentTime(slots[j + 1..], after, NEVER);
    Wider(b, n.tsMs, n.tsMs, 1, n.tsMs);
    Wider(d, after, after, n.tsMs, 3);
    TimeOfWindow1(a, m, b, 1, n.tsMs);
    TimeOfWindow1(Window1(a, m, b), n, d, 1, 3);
  }

  lemma RunTwoSpecial(c: Cell, slots: seq<Slot>, i: nat, j: nat, m: Mutation, cond: Condition, n: Mutation, after: int)
    requires i < j < |slots| && !HoldsKind(slots[..i], DeleteAlways) && !HoldsKind(slots[j + 1..], DeleteAlways)
    ensures var a := if HoldsKind(slots[..i], PutAlways) then Written(c, 1) else c;
            var b := ApplyCell(Run(ApplyCell(a, m).cell, Segment(slots[i + 1..j], n.tsMs, cond)), n).cell;
            Run(c, TwoSpecial(slots, i, j, m, cond, n, after)) ==
            if HoldsKind(slots[j + 1..], PutAlways) then Written(b, after) else b
  {
    hide ApplyCell, Written, HoldsKind;
    var u, z := slots[..i], slots[j + 1..];
    var v := Segment(slots[i + 1..j], n.tsMs, cond);
    RunWindow2(c, Segment(u, 1, NEVER), m, v, n, Segment(z, after, NEVER));
    QuietSegment(c, u, 1);
    var a := Run(c, Segment(u, 1, NEVER));
    QuietSegment(ApplyCell(Run(ApplyCell(a, m).cell, v), n).cell, z, after);
  }

  /** Two conditional deletes with a put between them, inside unconditional puts. */
  lemma DeletePutDelete(slots: seq<Slot>, i: nat, j: nat) returns (w: seq<Mutation>)
    requires i < j < |slots| && slots[i].kind == DeleteIf && slots[j].kind == DeleteIf
    requires !HoldsKind(slots[..i], DeleteAlways) && HoldsKind(slots[..i], PutAlways)
    requires !HoldsKind(slots[i + 1..j], DeleteAlways) && HoldsPut(slots[i + 1..j])
    requires !HoldsKind(slots[j + 1..], DeleteAlways) && HoldsKind(slots[j + 1..], PutAlways)
    ensures Breaks(w, slots)
  {
    hide HoldsKind;
    var m, n := Filled(slots[i], "x", 1, OnCreatedAt(3)), Filled(slots[j], "x", 2, OnCreatedAt(0));
    w := TwoSpecial(slots, i, j, m, ON_ABSENT, n, 3);
    FillsOne(slots[i], "x", 1, OnCreatedAt(3));
    FillsOne(slots[j], "x", 2, OnCreatedAt(0));
    TwoSpecialFills(slots, i, j, m, ON_ABSENT, n, 3);
    assert Run(START, w) == Written(None, 3) by {
      RunTwoSpecial(START, slots, i, j, m, ON_ABSENT, n, 3);
      CreatingSegment(Written(START, 1), slots[i + 1..j], 2);
    }
    var once := Written(None, 3);
    assert Run(once, w).Some? && Run(once, w).value.createdAt == 2 by {
      RunTwoSpecial(once, slots, i, j, m, ON_ABSENT, n, 3);
      CreatingSegment(None, slots[i + 1..j], 2);
    }
  }

  /** Two slots in a record's mutations, none of which is unconditional. */
  ghost predicate TwoSlots(slots: seq<Slot>, i: nat, j: nat) {
    i < j < |slots| && NoFixed(slots[..i]) && NoFixed(slots[i + 1..j]) && NoFixed(slots[j + 1..])
  }

  /** A conditional put followed by a conditional delete, and nothing unconditional. */
  lemma MayPutThenDelete(slots: seq<Slot>, i: nat, j: nat) returns (w: seq<Mutation>)
    requires TwoSlots(slots, i, j) && slots[i].kind == PutIf && slots[j].kind == DeleteIf
    ensures Breaks(w, slots)
  {
    w := Conditional2(slots, i, j, "x", ON_ABSENT, OnData("y"));
    RunConditional2(START, slots, i, j, "x", ON_ABSENT, OnData("y"));
    RunConditional2(None, slots, i, j, "x", ON_ABSENT, OnData("y"));
  }

  /** A conditional delete followed by a conditional put. */
  lemma MayDeleteThenPut(slots: seq<Slot>, i: nat, j: nat) returns (w: seq<Mutation>)
    requires TwoSlots(slots, i, j) && slots[i].kind == DeleteIf && slots[j].kind == PutIf
    ensures Breaks(w, slots)
  {
    w := Conditional2(slots, i, j, "x", OnData("x"), OnData("y"));
    RunConditional2(START, slots, i, j, "x", OnData("x"), OnData("y"));
    RunConditional2(Some(StoredRecord(Document("x"), 0, 1)), slots, i, j, "x", OnData("x"), OnData("y"));
  }

  /** Two conditional puts. */
  lemma MayPutTwice(slots: seq<Slot>, i: nat, j: nat) returns (w: seq<Mutation>)
    requires TwoSlots(slots, i, j) && slots[i].kind == PutIf && slots[j].kind == PutIf
    ensures Breaks(w, slots)
  {
    w := Conditional2(slots, i, j, "z", OnData("x"), OnData("y"));
    RunConditional2(START, slots, i, j, "z", OnData("x"), OnData("y"));
    RunConditional2(Some(StoredRecord(Document("x"), 0, 1)), slots, i, j, "z", OnData("x"), OnData("y"));
  }

  lemma Conditional2(slots: seq<Slot>, i: nat, j: nat, json: string, first: Condition, second: Condition)
    returns (w: seq<Mutation>)
    requires i < j < |slots|
    requires (forall r :: first(r) != Error) && (forall r :: second(r) != Error)
    ensures Fills(w, slots) && Within(w, 1, 3)
    ensures w == TwoSpecial(slots, i, j, Filled(slots[i], json, 1, first), NEVER, Filled(slots[j], "x", 1, second), 1)
  {
    hide Filled, Fills, Within;
    var m, n := Filled(slots[i], json, 1, first), Filled(slots[j], "x", 1, second);
    FilledTime(slots[i], json, 1, first);
    FilledTime(slots[j], "x", 1, second);
    FillsOne(slots[i], json, 1, first);
    FillsOne(slots[j], "x", 1, second);
    TwoSpecialFills(slots, i, j, m, NEVER, n, 1);
    w := TwoSpecial(slots, i, j, m, NEVER, n, 1);
  }

  lemma RunConditional2(c: Cell, slots: seq<Slot>, i: nat, j: nat, json: string, first: Condition, second: Condition)
    requires TwoSlots(slots, i, j)
    ensures var m, n := Filled(slots[i], json, 1, first), Filled(slots[j], "x", 1, second);
            Run(c, TwoSpecial(slots, i, j, m, NEVER, n, 1)) == ApplyCell(ApplyCell(c, m).cell, n).cell
  {
    hide Filled, ApplyCell, HoldsKind;
    var m, n := Filled(slots[i], json, 1, first), Filled(slots[j], "x", 1, second);
    RunTwoSpecial(c, slots, i, j, m, NEVER, n, 1);
    QuietSegment(ApplyCell(c, m).cell, slots[i + 1..j], n.tsMs);
  }

  // Every other plan breaks.

  function KindSeq(slots: seq<Slot>): (s: seq<Kind>)
    ensures |s| == |slots| && forall i :: 0 <= i < |s| ==> s[i] == slots[i].kind
  {
    seq(|slots|, i requires 0 <= i < |slots| => slots[i].kind)
  }

  lemma KindsOf(slots: seq<Slot>, kind: Kind)
    ensures HoldsKind(slots, kind) <==> kind in KindSeq(slots)
  {
    var s := KindSeq(slots);
    forall x | 0 <= x < |slots|
      ensures s[x] == slots[x].kind && s[x] in s
    {
    }
    if kind in s {
      var x :| 0 <= x < |s| && s[x] == kind;
      assert slots[x].kind == kind;
    }
  }

  lemma KindsOfPart(slots: seq<Slot>, i: nat, j: nat, kind: Kind)
    requires i <= j <= |slots|
    ensures HoldsKind(slots[i..j], kind) <==> kind in KindSeq(slots)[i..j]
  {
    hide HoldsKind;
    assert KindSeq(slots[i..j]) == KindSeq(slots)[i..j];
    KindsOf(slots[i..j], kind);
  }

  lemma {:induction false} FirstOf(s: seq<Kind>, kind: Kind) returns (i: nat)
    requires kind in s
    ensures i < |s| && s[i] == kind && kind !in s[..i]
  {
    if s[0] == kind {
      i := 0;
    } else {
      i := FirstOf(s[1..], kind);
      assert s[..i + 1] == [s[0]] + s[1..][..i];
      i := i + 1;
    }
  }

  lemma {:induction false} LastOf(s: seq<Kind>, kind: Kind) returns (i: nat)
    requires kind in s
    ensures i < |s| && s[i] == kind && kind !in s[i + 1..]
  {
    if kind in s[1..] {
      i := LastOf(s[1..], kind);
      assert s[1..][i + 1..] == s[i + 2..];
      i := i + 1;
    } else {
      assert s == [s[0]] + s[1..];
      i := 0;
    }
  }

  lemma PartOf(s: seq<Kind>, i: nat, j: nat, kind: Kind)
    requires i <= j <= |s| && kind !in s
    ensures kind !in s[i..j]
  {
  }

  /** Nothing unconditional, and two mutations that are not both conditional deletes. */
  lemma UnfixedBreaks(slots: seq<Slot>) returns (w: seq<Mutation>)
    requires |slots| >= 2 && NoFixed(slots) && exists i :: 0 <= i < |slots| && slots[i].kind != DeleteIf
    ensures Breaks(w, slots)
  {
    hide Breaks;
    var p: nat :| p < |slots| && slots[p].kind != DeleteIf;
    assert slots[p].kind == PutIf;
    var q := if p == 0 then 1 else 0;
    assert slots[q].kind == PutIf || slots[q].kind == DeleteIf;
    var i, j := if p < q then p else q, if p < q then q else p;
    assert TwoSlots(slots, i, j);
    if slots[q].kind == PutIf {
      w := MayPutTwice(slots, i, j);
    } else if p < q {
      w := MayPutThenDelete(slots, i, j);
    } else {
      w := MayDeleteThenPut(slots, i, j);
    }
  }

  /** What is on either side of a slot. */
  lemma Sides(slots: seq<Slot>, i: nat)
    requires i < |slots| && DeleteAlways !in KindSeq(slots)
    ensures !HoldsKind(slots[..i], DeleteAlways) && !HoldsKind(slots[i + 1..], DeleteAlways)
    ensures HoldsKind(slots[..i], PutAlways) <==> PutAlways in KindSeq(slots)[..i]
    ensures HoldsKind(slots[i + 1..], PutAlways) <==> PutAlways in KindSeq(slots)[i + 1..]
    ensures PutAlways in KindSeq(slots) && slots[i].kind != PutAlways ==>
              HoldsKind(slots[..i], PutAlways) || HoldsKind(slots[i + 1..], PutAlways)
  {
    hide HoldsKind;
    var s, n := KindSeq(slots), |slots|;
    KindsOfPart(slots, 0, i, DeleteAlways);
    KindsOfPart(slots, i + 1, n, DeleteAlways);
    KindsOfPart(slots, 0, i, PutAlways);
    KindsOfPart(slots, i + 1, n, PutAlways);
    PartOf(s, 0, i, DeleteAlways);
    PartOf(s, i + 1, n, DeleteAlways);
    assert slots[0..i] == slots[..i] && s[0..i] == s[..i];
    assert slots[i + 1..n] == slots[i + 1..] && s[i + 1..n] == s[i + 1..];
    assert s == s[..i] + [s[i]] + s[i + 1..];
  }

  lemma Inside(slots: seq<Slot>, i: nat, j: nat, x: nat)
    requires i <= x < j <= |slots| && DeleteAlways !in KindSeq(slots)
    requires KindSeq(slots)[x] == PutIf || KindSeq(slots)[x] == PutAlways
    ensures !HoldsKind(slots[i..j], DeleteAlways) && HoldsPut(slots[i..j])
  {
    hide HoldsKind;
    KindsOfPart(slots, i, j, DeleteAlways);
    KindsOfPart(slots, i, j, PutIf);
    KindsOfPart(slots, i, j, PutAlways);
    PartOf(KindSeq(slots), i, j, DeleteAlways);
    KindAtIsIn(KindSeq(slots), i, j, x);
  }

  /** Unconditional puts, and conditional deletes that they do not bracket. */
  lemma UnbracketedBreaks(slots: seq<Slot>) returns (w: seq<Mutation>)
    requires DeleteAlways !in KindSeq(slots) && PutAlways in KindSeq(slots) && DeleteIf in KindSeq(slots)
    requires !HasBracket(KindSeq(slots))
    ensures Breaks(w, slots)
  {
    hide Breaks, HoldsKind, HasBracket;
    var s := KindSeq(slots);
    var i := FirstOf(s, DeleteIf);
    var j := LastOf(s, DeleteIf);
    Sides(slots, i);
    Sides(slots, j);
    if PutAlways !in s[..i] {
      w := DeleteThenPut(slots, i);
    } else if PutAlways !in s[j + 1..] {
      w := PutThenDelete(slots, j);
    } else {
      FirstIsNotLater(s, i, j);
      var x := PutInside(s, i, j);
      Inside(slots, i + 1, j, x);
      w := DeletePutDelete(slots, i, j);
    }
  }

  lemma FirstIsNotLater(s: seq<Kind>, i: nat, j: nat)
    requires i < |s| && j < |s| && s[j] == DeleteIf && DeleteIf !in s[..i]
    ensures i <= j
  {
  }

  lemma KindAtIsIn(s: seq<Kind>, i: nat, j: nat, x: nat)
    requires i <= x < j <= |s|
    ensures s[x] in s[i..j]
  {
    assert s[i..j][x - i] == s[x];
  }

  lemma PutInside(s: seq<Kind>, i: nat, j: nat) returns (x: nat)
    requires i <= j < |s| && s[i] == DeleteIf && s[j] == DeleteIf && DeleteIf !in s[..i] && DeleteIf !in s[j + 1..]
    requires DeleteAlways !in s && PutAlways in s[..i] && PutAlways in s[j + 1..] && !HasBracket(s)
    ensures i < x < j && (s[x] == PutIf || s[x] == PutAlways)
  {
    assert !Bracketed(s, i, j + 1);
    var kind :| kind in s[i..j + 1] && kind != DeleteIf;
    var y :| 0 <= y < |s[i..j + 1]| && s[i..j + 1][y] == kind;
    x := i + y;
    assert s[x] == kind && s[x] in s;
  }

  lemma UnreplayableBreaks(slots: seq<Slot>) returns (w: seq<Mutation>)
    requires !Replayable(KindSeq(slots))
    ensures Breaks(w, slots)
  {
    hide Breaks;
    var s := KindSeq(slots);
    if PutAlways in s {
      w := UnbracketedBreaks(slots);
    } else {
      var kind :| kind in s && kind != DeleteIf;
      var i :| 0 <= i < |s| && s[i] == kind;
      assert forall x :: 0 <= x < |slots| ==> slots[x].kind == s[x] && s[x] in s;
      w := UnfixedBreaks(slots);
    }
  }

  // From one record to a whole plan.

  function SlotsAt(plan: seq<Slot>, k: Bytes): seq<Slot> {
    if plan == [] then [] else (if plan[0].Key() == k then [plan[0]] else []) + SlotsAt(plan[1..], k)
  }

  lemma {:induction false} KindsAreOfSlots(plan: seq<Slot>, k: Bytes)
    ensures KindSeq(SlotsAt(plan, k)) == KindsAt(plan, k)
  {
    hide FormatRecordKey;
    if plan != [] {
      KindsAreOfSlots(plan[1..], k);
    }
  }

  /** A stretch of the plan that does to record k what w does, and fills the other slots in time. */
  function Weave(plan: seq<Slot>, k: Bytes, w: seq<Mutation>, tsMs: int): seq<Mutation>
    requires |w| == |SlotsAt(plan, k)|
  {
    if plan == [] then []
    else if plan[0].Key() == k then
      assert SlotsAt(plan, k)[1..] == SlotsAt(plan[1..], k);
      [w[0]] + Weave(plan[1..], k, w[1..], w[0].tsMs)
    else
      assert SlotsAt(plan, k) == SlotsAt(plan[1..], k);
      [Filled(plan[0], "x", tsMs, NEVER)] + Weave(plan[1..], k, w, tsMs)
  }

  lemma {:induction false} PlanLength(w: seq<Mutation>)
    requires AllKnown(w)
    ensures |PlanOf(w)| == |w|
  {
    hide SlotOf;
    if w != [] {
      Shift(w);
      PlanLength(w[1..]);
    }
  }

  lemma FillsCons(m: Mutation, w: seq<Mutation>, slots: seq<Slot>)
    requires slots != [] && Fills([m] + w, slots)
    ensures SlotOf(m) == slots[0] && CannotFail(m) && Fills(w, slots[1..])
  {
    var v := [m] + w;
    assert v[1..] == w && v[0] == m;
    assert CannotFail(v[0]);
    assert forall i :: 0 <= i < |w| ==> w[i] == v[i + 1];
    assert PlanOf(v) == [SlotOf(m)] + PlanOf(w);
  }

  lemma {:induction false} Woven(plan: seq<Slot>, k: Bytes, w: seq<Mutation>, tsMs: int)
    requires |w| == |SlotsAt(plan, k)| && Fills(w, SlotsAt(plan, k))
    ensures Fills(Weave(plan, k, w, tsMs), plan) && At(Weave(plan, k, w, tsMs), k) == w
    decreases plan
  {
    hide FormatRecordKey, Filled, SlotOf;
    if plan != [] {
      var all, rest := Weave(plan, k, w, tsMs), plan[1..];
      if plan[0].Key() == k {
        assert SlotsAt(plan, k)[1..] == SlotsAt(rest, k);
        assert w == [w[0]] + w[1..];
        FillsCons(w[0], w[1..], SlotsAt(plan, k));
        Woven(rest, k, w[1..], w[0].tsMs);
        OneFills(w[0], plan[0]);
        FillsConcat([w[0]], [plan[0]], Weave(rest, k, w[1..], w[0].tsMs), rest);
        SlotKey(w[0]);
        assert all[1..] == Weave(rest, k, w[1..], w[0].tsMs);
      } else {
        assert SlotsAt(plan, k) == SlotsAt(rest, k);
        Woven(rest, k, w, tsMs);
        FillsOne(plan[0], "x", tsMs, NEVER);
        FillsConcat([Filled(plan[0], "x", tsMs, NEVER)], [plan[0]], Weave(rest, k, w, tsMs), rest);
        FilledKey(plan[0], "x", tsMs, NEVER);
        assert all[1..] == Weave(rest, k, w, tsMs);
      }
      assert plan == [plan[0]] + rest;
    } else {
      assert Weave(plan, k, w, tsMs) == [] && w == [];
    }
  }

  lemma WithinTail(w: seq<Mutation>, from: int, to: int)
    requires w != [] && Within(w, from, to)
    ensures from <= w[0].tsMs <= to && Within(w[1..], w[0].tsMs, to)
  {
  }

  lemma {:induction false} WovenInTime(plan: seq<Slot>, k: Bytes, w: seq<Mutation>, from: int, to: int)
    requires |w| == |SlotsAt(plan, k)| && from <= to && Within(w, from, to)
    ensures Within(Weave(plan, k, w, from), from, to)
    decreases plan
  {
    hide FormatRecordKey, Filled;
    if plan != [] {
      var rest := plan[1..];
      if plan[0].Key() == k {
        assert SlotsAt(plan, k)[1..] == SlotsAt(rest, k);
        WithinTail(w, from, to);
        WovenInTime(rest, k, w[1..], w[0].tsMs, to);
        WithinConcat([w[0]], Weave(rest, k, w[1..], w[0].tsMs), from, w[0].tsMs, to);
      } else {
        assert SlotsAt(plan, k) == SlotsAt(rest, k);
        FilledTime(plan[0], "x", from, NEVER);
        WovenInTime(rest, k, w, from, to);
        WithinConcat([Filled(plan[0], "x", from, NEVER)], Weave(rest, k, w, from), from, from, to);
      }
    }
  }

  lemma OneFills(m: Mutation, slot: Slot)
    requires CannotFail(m) && SlotOf(m) == slot
    ensures Fills([m], [slot])
  {
    assert PlanOf([m]) == [SlotOf(m)] + PlanOf([]);
  }

  lemma SlotKey(m: Mutation)
    requires m.op != Unknown
    ensures SlotOf(m).Key() == m.Key()
  {
  }

  lemma FilledKey(slot: Slot, json: string, tsMs: int, cond: Condition)
    ensures Filled(slot, json, tsMs, cond).Key() == slot.Key() && Filled(slot, json, tsMs, cond).op != Unknown
  {
  }

  /** A plan that is not settled has a stretch, none of whose mutations fails and whose times are in order, that
      breaks some one older record. */
  lemma UnsettledBreaks(plan: seq<Slot>, k: Bytes) returns (w: seq<Mutation>)
    requires !Replayable(KindsAt(plan, k))
    ensures Fills(w, plan) && Within(w, 1, 3)
    ensures Fold(Fold(map[k := START.value], w), w) != Fold(map[k := START.value], w)
  {
    hide Replayable, FormatRecordKey;
    KindsAreOfSlots(plan, k);
    var v := UnreplayableBreaks(SlotsAt(plan, k));
    assert AllKnown(v) by {
      assert forall i :: 0 <= i < |v| ==> CannotFail(v[i]);
    }
    PlanLength(v);
    Woven(plan, k, v, 1);
    WovenInTime(plan, k, v, 1, 3);
    w := Weave(plan, k, v, 1);
    var st := map[k := START.value];
    assert CellAt(st, k) == START;
    FoldIsCellwise(st, w, k);
    FoldIsCellwise(Fold(st, w), w, k);
    FoldCellIsRun(START, w, k);
    FoldCellIsRun(Run(START, v), w, k);
  }

  /** The guards of a stretch make it safe to apply twice, whatever its conditions, documents and times and from any
      store, exactly when its plan is settled. That the times are in order does not help. */
  lemma ReplaySafeIff(plan: seq<Slot>)
    ensures ReplaySafe(plan) <==> SettledPlan(plan)
    ensures ReplaySafeInTime(plan) <==> SettledPlan(plan)
  {
    hide Replayable;
    if SettledPlan(plan) {
      forall w, st | PlanOf(w) == plan
        ensures Fold(Fold(st, w), w) == Fold(st, w)
      {
        ReplayTwice(st, w);
      }
    } else {
      var k :| !Replayable(KindsAt(plan, k));
      var w := UnsettledBreaks(plan, k);
      assert InTime(w) && Older(map[k := START.value], w);
    }
  }
}
