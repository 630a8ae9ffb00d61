/** What the table of remote partitions comes to over many messages. */
module GossipRuns {
  import opened Gossip
  import opened Sequences

  datatype Event = Advertise(addr: Addr, parts: seq<int32>) | Depart(addr: Addr)

  function After(t: Table, e: Event): Table {
    match e
    case Advertise(a, parts) => Handled(t, parts, a)
    case Depart(a) => Drop(t, a)
  }

  function AfterAll(t: Table, events: seq<Event>): Table
    decreases events
  {
    if events == [] then t else AfterAll(After(t, events[0]), events[1..])
  }

  ghost predicate Distinct(t: Table) {
    forall p :: p in t ==> NoDuplicates(t[p])
  }

  /** Handling a message about one address never changes what is listed for another. */
  lemma OthersUntouched(t: Table, e: Event, b: Addr)
    requires b != e.addr
    ensures forall p :: Lists(After(t, e), p, b) <==> Lists(t, p, b)
  {
    if e.Advertise? {
      UnknownMembers(t, e.parts);
      var unknown := Unknown(t, e.parts);
      assert unknown != [] ==> unknown[0] in unknown;
    }
  }

  /** The others in each list stay in their order, and as often as they were. */
  lemma OthersInOrder(t: Table, e: Event)
    ensures forall p :: p in t ==>
              p in After(t, e) &&
                exists rest :: LeavesOut(t[p], e.addr, rest) && LeavesOut(After(t, e)[p], e.addr, rest)
  {
    hide LeavesOut;
    if e.Advertise? {
      UnknownMembers(t, e.parts);
      assert Unknown(t, e.parts) != [] ==> Unknown(t, e.parts)[0] in Unknown(t, e.parts);
    }
    forall p | p in t
      ensures exists rest :: LeavesOut(t[p], e.addr, rest) && LeavesOut(After(t, e)[p], e.addr, rest)
    {
      var rest := Without(t[p], e.addr);
      WithoutNext(t[p], e.addr, e.addr);
      WithoutIff(t[p], e.addr, rest);
      WithoutIff(After(t, e)[p], e.addr, rest);
    }
  }

  /** A departure leaves the address out of every list and changes nothing else. */
  lemma DepartureDrops(t: Table, a: Addr)
    ensures IsDropped(t, a, After(t, Depart(a)))
  {
    DropIff(t, a, After(t, Depart(a)));
  }

  /** An uninterrupted handler never lists an address twice. */
  lemma DistinctKept(t: Table, e: Event)
    requires Distinct(t)
    ensures Distinct(After(t, e))
  {
    forall p | p in t
      ensures NoDuplicates(Without(t[p], e.addr))
    {
      WithoutKeepsDistinct(t[p], e.addr);
    }
  }

  lemma {:induction false} DistinctRun(t: Table, events: seq<Event>)
    requires Distinct(t)
    ensures Distinct(AfterAll(t, events))
    decreases events
  {
    if events != [] {
      DistinctKept(t, events[0]);
      DistinctRun(After(t, events[0]), events[1..]);
    }
  }

  /** Keys are never removed; one advertisement makes the first unknown partition known, and no other. */
  lemma KeysAfter(t: Table, e: Event)
    ensures t.Keys <= After(t, e).Keys
    ensures e.Depart? ==> After(t, e).Keys == t.Keys
    ensures e.Advertise? ==>
              var unknown := Unknown(t, e.parts);
              After(t, e).Keys == t.Keys + if unknown == [] then {} else {unknown[0]}
  {
  }

  /** An advertisement puts right what is listed for its address, everywhere but at the partitions left unknown. */
  lemma AdvertisedAfter(t: Table, a: Addr, parts: seq<int32>)
    ensures forall p :: p in After(t, Advertise(a, parts)) ==>
            (Lists(After(t, Advertise(a, parts)), p, a) <==> p in parts)
  {
    UnknownMembers(t, parts);
    var unknown := Unknown(t, parts);
    assert unknown != [] ==> unknown[0] in unknown;
  }

  // Convergence.

  /** Every event about a is an advertisement of exactly the partitions in ps. */
  ghost predicate OnlyAdvertises(events: seq<Event>, a: Addr, ps: set<int32>) {
    forall i :: 0 <= i < |events| && events[i].addr == a ==> IsAdvertisementOf(events[i], ps)
  }

  ghost predicate IsAdvertisementOf(e: Event, ps: set<int32>) {
    e.Advertise? && forall p :: p in e.parts <==> p in ps
  }

  function Count(events: seq<Event>, a: Addr): nat {
    if events == [] then 0 else (if events[0].addr == a then 1 else 0) + Count(events[1..], a)
  }

  ghost predicate ListedExactly(t: Table, a: Addr, ps: set<int32>) {
    forall p :: Lists(t, p, a) <==> p in ps
  }

  /** The measure: how many advertised partitions are not keys of the table yet. */
  function Missing(t: Table, ps: set<int32>): nat {
    |ps - t.Keys|
  }

  lemma SubsetSize<T>(a: set<T>, b: set<T>)
    requires a <= b
    ensures |a| <= |b|
  {
    assert b == a + (b - a);
  }

  lemma AllKnown(ps: set<int32>, t: Table)
    requires Missing(t, ps) == 0
    ensures forall p :: p in ps ==> p in t
  {
    assert ps - t.Keys == {};
    assert forall p :: p in ps ==> p in t || p in ps - t.Keys;
  }

  lemma MissingAfter(t: Table, e: Event, ps: set<int32>)
    ensures Missing(After(t, e), ps) <= Missing(t, ps)
    ensures IsAdvertisementOf(e, ps) ==>
              Missing(After(t, e), ps) == if Missing(t, ps) == 0 then 0 else Missing(t, ps) - 1
  {
    hide After, Unknown;
    KeysAfter(t, e);
    SubsetSize(ps - After(t, e).Keys, ps - t.Keys);
    if IsAdvertisementOf(e, ps) {
      UnknownMembers(t, e.parts);
      var unknown := Unknown(t, e.parts);
      if unknown == [] {
        forall p | p in ps
          ensures p in t
        {
          assert p in e.parts;
        }
        assert ps - t.Keys == {};
      } else {
        assert unknown[0] in unknown && unknown[0] in ps - t.Keys;
        assert ps - After(t, e).Keys == (ps - t.Keys) - {unknown[0]};
      }
    }
  }

  lemma {:induction false} StaysListed(t: Table, events: seq<Event>, a: Addr, ps: set<int32>)
    requires ListedExactly(t, a, ps) && OnlyAdvertises(events, a, ps)
    ensures ListedExactly(AfterAll(t, events), a, ps)
    decreases events
  {
    if events != [] {
      var e := events[0];
      if e.addr == a {
        AdvertisedAfter(t, a, e.parts);
        KeysAfter(t, e);
        assert forall p :: p in ps ==> Lists(t, p, a) && p in After(t, e);
      } else {
        OthersUntouched(t, e, a);
      }
      StaysListed(After(t, e), events[1..], a, ps);
    }
  }

  /** An address that repeats an advertisement as often as it has partitions unknown to the table, and at least
      once, is listed for exactly those partitions, whatever others advertise and whoever departs meanwhile. */
  lemma {:induction false} Converges(t: Table, events: seq<Event>, a: Addr, ps: set<int32>)
    requires OnlyAdvertises(events, a, ps)
    requires Count(events, a) >= 1 && Count(events, a) >= Missing(t, ps)
    ensures ListedExactly(AfterAll(t, events), a, ps)
    decreases events
  {
    var e, rest := events[0], events[1..];
    assert forall i :: 0 <= i < |rest| ==> rest[i] == events[i + 1];
    MissingAfter(t, e, ps);
    if e.addr == a && Missing(After(t, e), ps) == 0 {
      AdvertisedAfter(t, a, e.parts);
      assert ps - After(t, e).Keys == {};
      AllKnown(ps, After(t, e));
      StaysListed(After(t, e), rest, a, ps);
    } else {
      Converges(After(t, e), rest, a, ps);
    }
  }

  lemma {:induction false} MissingAfterAll(t: Table, events: seq<Event>, ps: set<int32>)
    requires forall i :: 0 <= i < |events| ==> IsAdvertisementOf(events[i], ps)
    ensures Missing(AfterAll(t, events), ps) == if |events| >= Missing(t, ps) then 0 else Missing(t, ps) - |events|
    decreases events
  {
    if events != [] {
      MissingAfter(t, events[0], ps);
      MissingAfterAll(After(t, events[0]), events[1..], ps);
    }
  }

  lemma {:induction false} CountAll(events: seq<Event>, a: Addr)
    requires forall i :: 0 <= i < |events| ==> events[i].addr == a
    ensures Count(events, a) == |events|
  {
    if events != [] {
      CountAll(events[1..], a);
    }
  }

  /** The number of repetitions is exact: alone, an address is listed as advertised after its repetitions if and
      only if there were as many of them as unknown partitions. */
  lemma RepetitionsIff(t: Table, events: seq<Event>, a: Addr, ps: set<int32>)
    requires events != [] && forall i :: 0 <= i < |events| ==> events[i].addr == a && IsAdvertisementOf(events[i], ps)
    ensures ListedExactly(AfterAll(t, events), a, ps) <==> Missing(t, ps) <= |events|
  {
    CountAll(events, a);
    MissingAfterAll(t, events, ps);
    if Missing(t, ps) <= |events| {
      Converges(t, events, a, ps);
    } else {
      var left := ps - AfterAll(t, events).Keys;
      var p :| p in left;
      assert !Lists(AfterAll(t, events), p, a);
    }
  }

  // Departed addresses.

  ghost predicate Unlisted(t: Table, a: Addr) {
    forall p :: !Lists(t, p, a)
  }

  lemma {:induction false} StaysUnlisted(t: Table, events: seq<Event>, a: Addr)
    requires Unlisted(t, a) && forall i :: 0 <= i < |events| && events[i].Advertise? ==> events[i].addr != a
    ensures Unlisted(AfterAll(t, events), a)
    decreases events
  {
    if events != [] {
      var e, rest := events[0], events[1..];
      assert forall i :: 0 <= i < |rest| ==> rest[i] == events[i + 1];
      if e.addr == a {
        DepartureDrops(t, a);
      } else {
        OthersUntouched(t, e, a);
      }
      StaysUnlisted(After(t, e), rest, a);
    }
  }

  /** An address that departs and does not advertise again is listed nowhere, whatever others advertise. */
  lemma DepartedIsUnlisted(t: Table, a: Addr, events: seq<Event>)
    requires forall i :: 0 <= i < |events| && events[i].Advertise? ==> events[i].addr != a
    ensures Unlisted(AfterAll(After(t, Depart(a)), events), a)
  {
    DepartureDrops(t, a);
    StaysUnlisted(After(t, Depart(a)), events, a);
  }

  // Handlers run concurrently, and the table is locked for each of their three sections separately.

  datatype Handler =
    | Received(addr: Addr, parts: seq<int32>)
    | Compared(addr: Addr, parts: seq<int32>, news: seq<int32>, removed: seq<int32>)
    | Cleaned(addr: Addr, parts: seq<int32>, news: seq<int32>)

  datatype System = System(table: Table, handlers: map<nat, Handler>, received: set<(Addr, seq<int32>)>)

  datatype Action =
    | Receive(i: nat, addr: Addr, parts: seq<int32>)
    | Compare(i: nat, news: seq<int32>, removed: seq<int32>)
    | Clean(i: nat)
    | Add(i: nat)
    | Lose(addr: Addr)

  ghost predicate Enabled(s: System, act: Action) {
    match act
    case Receive(i, _, _) => i !in s.handlers
    case Compare(i, news, removed) =>
      i in s.handlers && s.handlers[i].Received? &&
        IsDifference(s.table, s.handlers[i].parts, s.handlers[i].addr, news, removed)
    case Clean(i) => i in s.handlers && s.handlers[i].Compared?
    case Add(i) => i in s.handlers && s.handlers[i].Cleaned?
    case Lose(_) => true
  }

  function Do(s: System, act: Action): System
    requires Enabled(s, act)
  {
    match act
    case Receive(i, a, parts) => System(s.table, s.handlers[i := Received(a, parts)], s.received + {(a, parts)})
    case Compare(i, news, removed) =>
      s.(handlers := s.handlers[i := Compared(s.handlers[i].addr, s.handlers[i].parts, news, removed)])
    case Clean(i) =>
      var h := s.handlers[i];
      System(RemoveAll(s.table, h.removed, h.addr), s.handlers[i := Cleaned(h.addr, h.parts, h.news)], s.received)
    case Add(i) =>
      var h := s.handlers[i];
      System(AddAll(s.table, h.news, h.addr), s.handlers - {i}, s.received)
    case Lose(a) => s.(table := Drop(s.table, a))
  }

  ghost predicate Possible(s: System, acts: seq<Action>)
    decreases acts
  {
    acts == [] || (Enabled(s, acts[0]) && Possible(Do(s, acts[0]), acts[1..]))
  }

  function Final(s: System, acts: seq<Action>): System
    requires Possible(s, acts)
    decreases acts
  {
    if acts == [] then s else Final(Do(s, acts[0]), acts[1..])
  }

  const IDLE := System(map[], map[], {})

  ghost predicate Advertised(s: System, p: int32, a: Addr) {
    exists m :: m in s.received && m.0 == a && p in m.1
  }

  ghost predicate Sound(s: System) {
    && (forall p, a :: Lists(s.table, p, a) ==> Advertised(s, p, a))
    && (forall i :: i in s.handlers ==> (s.handlers[i].addr, s.handlers[i].parts) in s.received)
    && (forall i :: i in s.handlers && !s.handlers[i].Received? ==>
          forall p :: p in s.handlers[i].news ==> p in s.handlers[i].parts)
  }

  lemma {:induction false} AddAllLists(t: Table, ps: seq<int32>, a: Addr, p: int32, b: Addr)
    requires Lists(AddAll(t, ps, a), p, b)
    ensures Lists(t, p, b) || (b == a && p in ps)
    decreases ps
  {
    if ps != [] && ps[0] in t {
      AddAllLists(t[ps[0] := t[ps[0]] + [a]], ps[1..], a, p, b);
      assert ps == [ps[0]] + ps[1..];
    }
  }

  lemma {:induction false} RemoveAllLists(t: Table, ps: seq<int32>, a: Addr, p: int32, b: Addr)
    requires Lists(RemoveAll(t, ps, a), p, b)
    ensures Lists(t, p, b)
    decreases ps
  {
    if ps != [] && ps[0] in t {
      RemoveAllLists(t[ps[0] := Without(t[ps[0]], a)], ps[1..], a, p, b);
    }
  }

  lemma NewsAreAdvertised(t: Table, parts: seq<int32>, a: Addr, news: seq<int32>, removed: seq<int32>)
    requires IsDifference(t, parts, a, news, removed)
    ensures forall p :: p in news ==> p in parts
  {
    hide Unknown;
    var n :| 0 <= n <= |news| && IsNewSplit(t, parts, a, news[..n], news[n..]);
    UnknownMembers(t, parts);
    assert news == news[..n] + news[n..];
  }

  lemma SoundStep(s: System, act: Action)
    requires Sound(s) && Enabled(s, act)
    ensures Sound(Do(s, act))
  {
    var s' := Do(s, act);
    if act.Compare? {
      NewsAreAdvertised(s.table, s.handlers[act.i].parts, s.handlers[act.i].addr, act.news, act.removed);
    }
    forall p, a | Lists(s'.table, p, a)
      ensures Advertised(s', p, a)
    {
      if act.Add? {
        var h := s.handlers[act.i];
        AddAllLists(s.table, h.news, h.addr, p, a);
        if !Lists(s.table, p, a) {
          assert (h.addr, h.parts) in s'.received && p in (h.addr, h.parts).1;
        }
      }
      if act.Clean? {
        RemoveAllLists(s.table, s.handlers[act.i].removed, s.handlers[act.i].addr, p, a);
      }
      if Lists(s.table, p, a) {
        var m :| m in s.received && m.0 == a && p in m.1;
        assert m in s'.received;
      }
    }
  }

  /** However handlers and departures interleave, an address is listed for a partition only if it once advertised it. */
  lemma {:induction false} OnlyAdvertisedIsListed(s: System, acts: seq<Action>)
    requires Sound(s) && Possible(s, acts)
    ensures Sound(Final(s, acts))
    decreases acts
  {
    if acts != [] {
      SoundStep(s, acts[0]);
      OnlyAdvertisedIsListed(Do(s, acts[0]), acts[1..]);
    }
  }

  lemma ListedOnceAdvertised(acts: seq<Action>, p: int32, a: Addr)
    requires Possible(IDLE, acts) && Lists(Final(IDLE, acts).table, p, a)
    ensures Advertised(Final(IDLE, acts), p, a)
  {
    OnlyAdvertisedIsListed(IDLE, acts);
  }

  /** No handler of the address comes to add. */
  ghost predicate NeverAdds(s: System, acts: seq<Action>, a: Addr)
    requires Possible(s, acts)
    decreases acts
  {
    acts != [] ==>
      !(acts[0].Add? && s.handlers[acts[0].i].addr == a) && NeverAdds(Do(s, acts[0]), acts[1..], a)
  }

  lemma UnlistedStep(s: System, act: Action, a: Addr)
    requires Enabled(s, act) && (act == Lose(a) || Unlisted(s.table, a))
    requires !(act.Add? && s.handlers[act.i].addr == a)
    ensures Unlisted(Do(s, act).table, a)
  {
    if act == Lose(a) {
      DepartureDrops(s.table, a);
    }
    forall p | act != Lose(a) && Lists(Do(s, act).table, p, a)
      ensures Lists(s.table, p, a)
    {
      if act.Add? {
        AddAllLists(s.table, s.handlers[act.i].news, s.handlers[act.i].addr, p, a);
      } else if act.Clean? {
        RemoveAllLists(s.table, s.handlers[act.i].removed, s.handlers[act.i].addr, p, a);
      }
    }
  }

  lemma {:induction false} UnlistedRun(s: System, acts: seq<Action>, a: Addr)
    requires Unlisted(s.table, a) && Possible(s, acts) && NeverAdds(s, acts, a)
    ensures Unlisted(Final(s, acts).table, a)
    decreases acts
  {
    hide Unlisted;
    if acts != [] {
      UnlistedStep(s, acts[0], a);
      UnlistedRun(Do(s, acts[0]), acts[1..], a);
    }
  }

  /** With handlers interleaved, a lost address is listed nowhere until a handler of one of its advertisements, which
      may have been received before the loss, comes to add. */
  lemma LostIsUnlisted(s: System, a: Addr, acts: seq<Action>)
    requires Possible(Do(s, Lose(a)), acts) && NeverAdds(Do(s, Lose(a)), acts, a)
    ensures Unlisted(Final(Do(s, Lose(a)), acts).table, a)
  {
    UnlistedStep(s, Lose(a), a);
    UnlistedRun(Do(s, Lose(a)), acts, a);
  }

  lemma {:induction false} Extend(s: System, acts: seq<Action>, act: Action)
    requires Possible(s, acts) && Enabled(Final(s, acts), act)
    ensures Possible(s, acts + [act]) && Final(s, acts + [act]) == Do(Final(s, acts), act)
    decreases acts
  {
    if acts == [] {
      assert ([act])[1..] == [] && acts + [act] == [act];
      assert Possible(Do(s, act), []);
    } else {
      assert (acts + [act])[1..] == acts[1..] + [act];
      Extend(Do(s, acts[0]), acts[1..], act);
    }
  }

  /** Partition 7 is new to a table that knows of none. */
  lemma SevenIsNew()
    ensures IsDifference(map[], [7], "a", [7], [])
  {
    var news: seq<int32> := [7];
    assert news[..0] == [] && news[0..] == [7];
    assert Unknown(map[], news) == [7];
    assert IsNewSplit(map[], news, "a", news[..0], news[0..]);
  }

  lemma RemoveNothing()
    ensures RemoveAll(map[], [], "a") == map[]
  {
  }

  lemma AddSeven()
    ensures AddAll(map[], [7], "a") == map[7 := ["a"]]
  {
  }

  lemma AddSevenAgain()
    ensures AddAll(map[7 := ["a"]], [7], "a") == map[7 := ["a", "a"]]
  {
    var t: Table := map[7 := ["a"]];
    assert t[7] + ["a"] == ["a", "a"];
    assert t[7 := ["a", "a"]] == map[7 := ["a", "a"]];
    assert AddAll(map[7 := ["a", "a"]], [], "a") == map[7 := ["a", "a"]];
  }

  const MESSAGE: (Addr, seq<int32>) := ("a", [7])

  /** Two handlers of one advertisement have both compared it with an empty table. */
  lemma BothCompared() returns (acts: seq<Action>)
    ensures Possible(IDLE, acts)
    ensures Final(IDLE, acts) == System(map[], map[0 := Compared("a", [7], [7], []), 1 := Compared("a", [7], [7], [])],
              {MESSAGE})
  {
    SevenIsNew();
    hide IsDifference;
    acts := [];
    Extend(IDLE, acts, Receive(0, "a", [7]));
    acts := acts + [Receive(0, "a", [7])];
    Extend(IDLE, acts, Receive(1, "a", [7]));
    acts := acts + [Receive(1, "a", [7])];
    Extend(IDLE, acts, Compare(0, [7], []));
    acts := acts + [Compare(0, [7], [])];
    Extend(IDLE, acts, Compare(1, [7], []));
    acts := acts + [Compare(1, [7], [])];
  }

  lemma BothCleaned() returns (acts: seq<Action>)
    ensures Possible(IDLE, acts)
    ensures Final(IDLE, acts) == System(map[], map[0 := Cleaned("a", [7], [7]), 1 := Cleaned("a", [7], [7])], {MESSAGE})
  {
    RemoveNothing();
    hide RemoveAll;
    acts := BothCompared();
    Extend(IDLE, acts, Clean(0));
    acts := acts + [Clean(0)];
    Extend(IDLE, acts, Clean(1));
    acts := acts + [Clean(1)];
  }

  /** Two handlers of one advertisement, both of which compare before either adds, list its address twice.
      Uninterrupted handlers never do. */
  lemma InterleavingCanDuplicate()
    ensures exists acts :: Possible(IDLE, acts) && !Distinct(Final(IDLE, acts).table)
  {
    AddSeven();
    AddSevenAgain();
    hide AddAll;
    var acts := BothCleaned();
    Extend(IDLE, acts, Add(0));
    acts := acts + [Add(0)];
    Extend(IDLE, acts, Add(1));
    acts := acts + [Add(1)];
    var addrs := Final(IDLE, acts).table[7];
    assert addrs == ["a", "a"] && addrs[0] == addrs[1];
  }

  lemma NothingToDrop(a: Addr)
    ensures Drop(map[], a) == map[]
  {
  }

  /** The handler of an advertisement has compared it with an empty table when its address is lost. */
  lemma LostWhileCompared() returns (acts: seq<Action>)
    ensures |acts| == 3 && acts[2] == Lose("a") && Possible(IDLE, acts)
    ensures Final(IDLE, acts) == System(map[], map[0 := Compared("a", [7], [7], [])], {MESSAGE})
  {
    SevenIsNew();
    NothingToDrop("a");
    hide IsDifference, Drop;
    acts := [];
    Extend(IDLE, acts, Receive(0, "a", [7]));
    acts := acts + [Receive(0, "a", [7])];
    Extend(IDLE, acts, Compare(0, [7], []));
    acts := acts + [Compare(0, [7], [])];
    Extend(IDLE, acts, Lose("a"));
    acts := acts + [Lose("a")];
  }

  /** A lost address can come back without advertising again: the handler of an advertisement that arrived before the
      loss adds after it. */
  lemma LostCanReturn()
    ensures exists acts: seq<Action>, n: nat :: n < |acts| && Possible(IDLE, acts) && acts[n] == Lose("a") &&
              (forall i :: n < i < |acts| ==> !acts[i].Receive?) && Lists(Final(IDLE, acts).table, 7, "a")
  {
    RemoveNothing();
    AddSeven();
    var acts := LostWhileCompared();
    hide RemoveAll, AddAll, Possible, Final;
    Extend(IDLE, acts, Clean(0));
    acts := acts + [Clean(0)];
    Extend(IDLE, acts, Add(0));
    acts := acts + [Add(0)];
    assert acts[2] == Lose("a") && |acts| == 5 && acts[3] == Clean(0) && acts[4] == Add(0);
    assert Final(IDLE, acts).table == map[7 := ["a"]];
  }

  // When exactly an address comes to be listed twice.

  /** The partitions that adding gets to append to: those before the first that is not a key. */
  function Reached(t: Table, ps: seq<int32>): seq<int32> {
    if ps == [] || ps[0] !in t then [] else [ps[0]] + Reached(t, ps[1..])
  }

  /** What adding appends to has no repetition and does not list the address yet. */
  ghost predicate MayAdd(t: Table, ps: seq<int32>, a: Addr) {
    NoDuplicates(Reached(t, ps)) && forall p :: p in Reached(t, ps) ==> !Lists(t, p, a)
  }

  lemma {:induction false} ReachedIsKnown(t: Table, ps: seq<int32>)
    ensures forall p :: p in Reached(t, ps) ==> p in t && p in ps
    decreases ps
  {
    if ps != [] && ps[0] in t {
      ReachedIsKnown(t, ps[1..]);
      assert ps == [ps[0]] + ps[1..];
    }
  }

  lemma {:induction false} ReachedInSameKeys(t: Table, u: Table, ps: seq<int32>)
    requires t.Keys == u.Keys
    ensures Reached(t, ps) == Reached(u, ps)
    decreases ps
  {
    if ps != [] && ps[0] in t {
      ReachedInSameKeys(t, u, ps[1..]);
    }
  }

  lemma AppendDistinct(addrs: seq<Addr>, a: Addr)
    ensures NoDuplicates(addrs + [a]) <==> NoDuplicates(addrs) && a !in addrs
  {
    var longer := addrs + [a];
    if NoDuplicates(longer) {
      assert forall i :: 0 <= i < |addrs| ==> longer[i] == addrs[i];
      assert a !in addrs by {
        assert forall i :: 0 <= i < |addrs| ==> longer[i] != longer[|addrs|];
      }
    }
  }

  lemma ConsDistinct(p: int32, ps: seq<int32>)
    ensures NoDuplicates([p] + ps) <==> p !in ps && NoDuplicates(ps)
  {
    var all := [p] + ps;
    if NoDuplicates(all) {
      assert forall i :: 0 <= i < |ps| ==> all[i + 1] == ps[i] && all[0] != all[i + 1];
    }
  }

  /** After one address is appended, what is reached later decides. */
  lemma MayAddNext(t: Table, p: int32, ps: seq<int32>, a: Addr)
    requires p in t && !Lists(t, p, a)
    ensures MayAdd(t, [p] + ps, a) <==> MayAdd(t[p := t[p] + [a]], ps, a)
  {
    hide NoDuplicates;
    var t' := t[p := t[p] + [a]];
    assert ([p] + ps)[1..] == ps;
    ReachedInSameKeys(t, t', ps);
    ConsDistinct(p, Reached(t, ps));
    assert Reached(t, [p] + ps) == [p] + Reached(t, ps);
    assert Lists(t', p, a);
    assert forall q :: q != p ==> (Lists(t', q, a) <==> Lists(t, q, a));
  }

  /** Lists that are not distinct stay so while addresses are added. */
  lemma {:induction false} AddingKeepsRepetition(t: Table, ps: seq<int32>, a: Addr)
    requires !Distinct(t)
    ensures !Distinct(AddAll(t, ps, a))
    decreases ps
  {
    if ps != [] {
      var q :| q in t && !NoDuplicates(t[q]);
      if ps[0] !in t {
        assert t[ps[0] := [a]][q] == t[q];
      } else {
        var t' := t[ps[0] := t[ps[0]] + [a]];
        AppendDistinct(t[ps[0]], a);
        assert !NoDuplicates(t'[q]);
        AddingKeepsRepetition(t', ps[1..], a);
      }
    }
  }

  /** Adding keeps every list free of repetitions exactly under that guard. */
  lemma {:induction false} AddKeepsDistinctIff(t: Table, ps: seq<int32>, a: Addr)
    requires Distinct(t)
    ensures Distinct(AddAll(t, ps, a)) <==> MayAdd(t, ps, a)
    decreases ps
  {
    hide NoDuplicates;
    if ps == [] || ps[0] !in t {
      NoRepetition(a);
      assert Reached(t, ps) == [];
      NothingRepeats();
    } else {
      var p, t' := ps[0], t[ps[0] := t[ps[0]] + [a]];
      AppendDistinct(t[p], a);
      assert ps == [p] + ps[1..];
      if Lists(t, p, a) {
        assert !NoDuplicates(t'[p]);
        AddingKeepsRepetition(t', ps[1..], a);
        assert p in Reached(t, ps);
      } else {
        assert Distinct(t');
        AddKeepsDistinctIff(t', ps[1..], a);
        MayAddNext(t, p, ps[1..], a);
      }
    }
  }

  lemma NoRepetition(a: Addr)
    ensures NoDuplicates([a])
  {
  }

  lemma NothingRepeats()
    ensures NoDuplicates<int32>([])
  {
  }

  lemma {:induction false} RemoveKeepsDistinct(t: Table, ps: seq<int32>, a: Addr)
    requires Distinct(t)
    ensures Distinct(RemoveAll(t, ps, a))
    decreases ps
  {
    hide NoDuplicates;
    if ps != [] && ps[0] in t {
      WithoutKeepsDistinct(t[ps[0]], a);
      RemoveKeepsDistinct(t[ps[0] := Without(t[ps[0]], a)], ps[1..], a);
    }
  }

  /** The guard of every step: only adding has one. */
  ghost predicate Guarded(s: System, act: Action)
    requires Enabled(s, act)
  {
    act.Add? ==> MayAdd(s.table, s.handlers[act.i].news, s.handlers[act.i].addr)
  }

  lemma StepIsDistinctIff(s: System, act: Action)
    requires Distinct(s.table) && Enabled(s, act)
    ensures Distinct(Do(s, act).table) <==> Guarded(s, act)
  {
    hide NoDuplicates, MayAdd;
    match act
    case Add(i) =>
      AddKeepsDistinctIff(s.table, s.handlers[i].news, s.handlers[i].addr);
    case Clean(i) =>
      RemoveKeepsDistinct(s.table, s.handlers[i].removed, s.handlers[i].addr);
    case Lose(a) =>
      forall p | p in s.table
        ensures NoDuplicates(Without(s.table[p], a))
      {
        WithoutKeepsDistinct(s.table[p], a);
      }
    case Receive(_, _, _) =>
    case Compare(_, _, _) =>
  }

  /** No table of the run lists an address twice. */
  ghost predicate DistinctThroughout(s: System, acts: seq<Action>)
    requires Possible(s, acts)
    decreases acts
  {
    Distinct(s.table) && (acts != [] ==> DistinctThroughout(Do(s, acts[0]), acts[1..]))
  }

  ghost predicate GuardedThroughout(s: System, acts: seq<Action>)
    requires Possible(s, acts)
    decreases acts
  {
    acts != [] ==> Guarded(s, acts[0]) && GuardedThroughout(Do(s, acts[0]), acts[1..])
  }

  /** However handlers and departures interleave, no table of the run lists an address twice if and only if every
      section that adds meets its guard when its turn comes. */
  lemma {:induction false} DistinctRunIff(s: System, acts: seq<Action>)
    requires Distinct(s.table) && Possible(s, acts)
    ensures DistinctThroughout(s, acts) <==> GuardedThroughout(s, acts)
    decreases acts
  {
    hide Distinct, Guarded;
    if acts != [] {
      StepIsDistinctIff(s, acts[0]);
      if Guarded(s, acts[0]) {
        DistinctRunIff(Do(s, acts[0]), acts[1..]);
      } else {
        assert !DistinctThroughout(Do(s, acts[0]), acts[1..]);
      }
    }
  }

  // Handlers of one address that do not overlap.

  /** The handler has compared and is yet to add. */
  predicate InFlight(h: Handler) {
    !h.Received?
  }

  /** No comparison starts while another handler of the same address is between its comparison and its addition,
      and no advertisement names a partition twice. */
  ghost predicate Orderly(s: System, act: Action)
    requires Enabled(s, act)
  {
    match act
    case Receive(_, _, parts) => NoDuplicates(parts)
    case Compare(i, _, _) =>
      forall j :: j in s.handlers && InFlight(s.handlers[j]) ==> s.handlers[j].addr != s.handlers[i].addr
    case _ => true
  }

  ghost predicate OrderlyThroughout(s: System, acts: seq<Action>)
    requires Possible(s, acts)
    decreases acts
  {
    acts != [] ==> Orderly(s, acts[0]) && OrderlyThroughout(Do(s, acts[0]), acts[1..])
  }

  /** What a handler in flight is going to add is new for its address. */
  ghost predicate Fresh(t: Table, h: Handler) {
    InFlight(h) ==> NoDuplicates(h.news) && forall p :: p in h.news ==> !Lists(t, p, h.addr)
  }

  ghost predicate InOrder(s: System) {
    && (forall i :: i in s.handlers ==> NoDuplicates(s.handlers[i].parts) && Fresh(s.table, s.handlers[i]))
    && (forall i, j ::
          i in s.handlers && j in s.handlers && i != j && InFlight(s.handlers[i]) && InFlight(s.handlers[j]) ==>
          s.handlers[i].addr != s.handlers[j].addr)
  }

  lemma {:induction false} UnknownIsDistinct(t: Table, parts: seq<int32>)
    requires NoDuplicates(parts)
    ensures NoDuplicates(Unknown(t, parts))
    decreases parts
  {
    hide NoDuplicates;
    if parts == [] {
      NothingRepeats();
    } else {
      assert parts == [parts[0]] + parts[1..];
      ConsDistinct(parts[0], parts[1..]);
      UnknownIsDistinct(t, parts[1..]);
      UnknownMembers(t, parts[1..]);
      ConsDistinct(parts[0], Unknown(t, parts[1..]));
      assert Unknown(t, parts) == Unknown(t, parts[1..]) || Unknown(t, parts) == [parts[0]] + Unknown(t, parts[1..]);
    }
  }

  lemma DifferenceIsFresh(t: Table, parts: seq<int32>, a: Addr, news: seq<int32>, removed: seq<int32>)
    requires IsDifference(t, parts, a, news, removed) && NoDuplicates(parts)
    ensures NoDuplicates(news) && forall p :: p in news ==> !Lists(t, p, a)
  {
    hide NoDuplicates;
    var n :| 0 <= n <= |news| && IsNewSplit(t, parts, a, news[..n], news[n..]);
    var known, unknown := news[..n], news[n..];
    assert news == known + unknown;
    UnknownMembers(t, parts);
    UnknownIsDistinct(t, parts);
    NoDuplicatesConcat(known, unknown);
  }

  lemma {:induction false} ReachedIsPrefix(t: Table, ps: seq<int32>)
    ensures Reached(t, ps) <= ps
    decreases ps
  {
    if ps != [] && ps[0] in t {
      ReachedIsPrefix(t, ps[1..]);
      assert ps == [ps[0]] + ps[1..];
    }
  }

  lemma FreshMayAdd(t: Table, h: Handler)
    requires Fresh(t, h) && InFlight(h)
    ensures MayAdd(t, h.news, h.addr)
  {
    ReachedIsPrefix(t, h.news);
    ReachedIsKnown(t, h.news);
  }

  /** Listing fewer addresses, or others only, keeps a handler's news new. */
  lemma FreshStays(t: Table, u: Table, h: Handler)
    requires Fresh(t, h) && forall p :: Lists(u, p, h.addr) ==> Lists(t, p, h.addr)
    ensures Fresh(u, h)
  {
  }

  lemma OrderStep(s: System, act: Action)
    requires InOrder(s) && Enabled(s, act) && Orderly(s, act)
    ensures InOrder(Do(s, act)) && Guarded(s, act)
  {
    hide NoDuplicates, MayAdd, Fresh, Lists, IsDifference;
    var s' := Do(s, act);
    if act.Add? {
      FreshMayAdd(s.table, s.handlers[act.i]);
    }
    if act.Compare? {
      ComparedIsFresh(s, act);
    }
    if act.Receive? {
      ReceivedIsFresh(s.table, act.addr, act.parts);
    }
    forall i | i in s.handlers && i in s'.handlers && s.handlers[i] == s'.handlers[i]
      ensures Fresh(s'.table, s'.handlers[i])
    {
      if act.Add? && InFlight(s.handlers[i]) {
        OtherAdds(s.table, s.handlers[act.i], s.handlers[i]);
      } else if act.Add? {
        NotInFlightIsFresh(s'.table, s.handlers[i]);
      } else if act.Clean? {
        FewerListed(s.table, s.handlers[act.i].removed, s.handlers[act.i].addr, s.handlers[i]);
      } else if act.Lose? {
        FewerAfterLoss(s.table, act.addr, s.handlers[i]);
      }
    }
    if act.Clean? {
      CleanedIsFresh(s.table, s.handlers[act.i]);
    }
  }

  lemma NotInFlightIsFresh(t: Table, h: Handler)
    requires !InFlight(h)
    ensures Fresh(t, h)
  {
  }

  lemma ReceivedIsFresh(t: Table, a: Addr, parts: seq<int32>)
    ensures Fresh(t, Received(a, parts))
  {
  }

  lemma ComparedIsFresh(s: System, act: Action)
    requires act.Compare? && Enabled(s, act) && NoDuplicates(s.handlers[act.i].parts)
    ensures Fresh(s.table, Do(s, act).handlers[act.i])
  {
    hide NoDuplicates, IsDifference;
    DifferenceIsFresh(s.table, s.handlers[act.i].parts, s.handlers[act.i].addr, act.news, act.removed);
  }

  lemma CleanedIsFresh(t: Table, h: Handler)
    requires h.Compared? && Fresh(t, h)
    ensures Fresh(RemoveAll(t, h.removed, h.addr), Cleaned(h.addr, h.parts, h.news))
  {
    hide NoDuplicates;
    forall p | Lists(RemoveAll(t, h.removed, h.addr), p, h.addr)
      ensures Lists(t, p, h.addr)
    {
      RemoveAllLists(t, h.removed, h.addr, p, h.addr);
    }
  }

  lemma FewerListed(t: Table, removed: seq<int32>, a: Addr, h: Handler)
    requires Fresh(t, h)
    ensures Fresh(RemoveAll(t, removed, a), h)
  {
    forall p | Lists(RemoveAll(t, removed, a), p, h.addr)
      ensures Lists(t, p, h.addr)
    {
      RemoveAllLists(t, removed, a, p, h.addr);
    }
    FreshStays(t, RemoveAll(t, removed, a), h);
  }

  lemma FewerAfterLoss(t: Table, a: Addr, h: Handler)
    requires Fresh(t, h)
    ensures Fresh(Drop(t, a), h)
  {
    FreshStays(t, Drop(t, a), h);
  }

  lemma OtherAdds(t: Table, adding: Handler, h: Handler)
    requires Fresh(t, h) && InFlight(adding) && adding.addr != h.addr
    ensures Fresh(AddAll(t, adding.news, adding.addr), h)
  {
    forall p | Lists(AddAll(t, adding.news, adding.addr), p, h.addr)
      ensures Lists(t, p, h.addr)
    {
      AddAllLists(t, adding.news, adding.addr, p, h.addr);
    }
    FreshStays(t, AddAll(t, adding.news, adding.addr), h);
  }

  lemma {:induction false} OrderGuards(s: System, acts: seq<Action>)
    requires InOrder(s) && Possible(s, acts) && OrderlyThroughout(s, acts)
    ensures GuardedThroughout(s, acts)
    decreases acts
  {
    hide InOrder, Guarded, Orderly;
    if acts != [] {
      OrderStep(s, acts[0]);
      OrderGuards(Do(s, acts[0]), acts[1..]);
    }
  }

  /** When handlers of one address do not overlap and advertisements repeat no partition, no table ever lists an
      address twice, however the handlers of other addresses and departures interleave with them. */
  lemma OrderlyRunsAreDistinct(acts: seq<Action>)
    requires Possible(IDLE, acts) && OrderlyThroughout(IDLE, acts)
    ensures DistinctThroughout(IDLE, acts)
  {
    OrderGuards(IDLE, acts);
    DistinctRunIff(IDLE, acts);
  }
}
