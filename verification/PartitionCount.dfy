/** How nodes agree on the number of partitions through the first record of a topic. */
module PartitionCount {
  /** Polling: before the first poll. Publishing: it brought nothing. Checking: the own count was published, the
      second poll comes next. */
  datatype Phase = Polling | Publishing | Checking | Started | Stopped

  datatype Node = Node(count: int, phase: Phase)

  datatype Cluster = Cluster(topic: seq<int>, nodes: map<nat, Node>)

  /** A poll that gets nothing may have timed out, failed, or come back empty although there are records. One that
      gets records gets them from the start of the topic. A publication that fails may still have been appended. */
  datatype Step =
    | Launch(n: nat, count: int)
    | Poll(n: nat, got: nat)
    | Publish(n: nat)
    | PublishFails(n: nat, appended: bool)

  const INIT := Cluster([], map[])

  ghost predicate Enabled(c: Cluster, s: Step) {
    match s
    case Launch(_, _) => true
    case Poll(n, got) => n in c.nodes && (c.nodes[n].phase.Polling? || c.nodes[n].phase.Checking?) && got <= |c.topic|
    case Publish(n) => n in c.nodes && c.nodes[n].phase.Publishing?
    case PublishFails(n, _) => n in c.nodes && c.nodes[n].phase.Publishing?
  }

  /** What a node does with polled records: the first one decides. */
  function Decide(count: int, records: seq<int>): Phase
    requires records != []
  {
    if records[0] == count then Started else Stopped
  }

  function Do(c: Cluster, s: Step): Cluster
    requires Enabled(c, s)
  {
    match s
    case Launch(n, count) => c.(nodes := c.nodes[n := Node(count, Polling)])
    case Poll(n, got) =>
      var node := c.nodes[n];
      var phase :=
        if got > 0 then Decide(node.count, c.topic[..got])
        else if node.phase.Polling? then Publishing
        else Stopped;
      c.(nodes := c.nodes[n := node.(phase := phase)])
    case Publish(n) =>
      var node := c.nodes[n];
      Cluster(c.topic + [node.count], c.nodes[n := node.(phase := Checking)])
    case PublishFails(n, appended) =>
      var node := c.nodes[n];
      Cluster(if appended then c.topic + [node.count] else c.topic, c.nodes[n := node.(phase := Stopped)])
  }

  ghost predicate Possible(c: Cluster, run: seq<Step>)
    decreases run
  {
    run == [] || (Enabled(c, run[0]) && Possible(Do(c, run[0]), run[1..]))
  }

  function After(c: Cluster, run: seq<Step>): Cluster
    requires Possible(c, run)
    decreases run
  {
    if run == [] then c else After(Do(c, run[0]), run[1..])
  }

  ghost predicate Agreed(c: Cluster) {
    forall n :: n in c.nodes && c.nodes[n].phase.Started? ==> c.topic != [] && c.topic[0] == c.nodes[n].count
  }

  lemma {:induction false} AgreedAfter(c: Cluster, run: seq<Step>)
    requires Agreed(c) && Possible(c, run)
    ensures Agreed(After(c, run)) && c.topic <= After(c, run).topic
    decreases run
  {
    if run != [] {
      var c' := Do(c, run[0]);
      assert Agreed(c');
      AgreedAfter(c', run[1..]);
    }
  }

  /** The nodes that have started, in any run, all have the count in the first record of the topic. */
  lemma StartedNodesAgree(run: seq<Step>, m: nat, n: nat)
    requires Possible(INIT, run)
    ensures var c := After(INIT, run);
            (m in c.nodes && c.nodes[m].phase.Started? ==> c.topic != [] && c.nodes[m].count == c.topic[0]) &&
            (m in c.nodes && n in c.nodes && c.nodes[m].phase.Started? && c.nodes[n].phase.Started? ==>
                c.nodes[m].count == c.nodes[n].count)
  {
    AgreedAfter(INIT, run);
  }

  /** The first count to reach the topic is decisive for good: a node that polls records in any later state starts
      if and only if it has that count. */
  lemma FirstCountDecides(c: Cluster, run: seq<Step>, n: nat, got: nat)
    requires Agreed(c) && c.topic != [] && Possible(c, run)
    requires got > 0 && Enabled(After(c, run), Poll(n, got))
    ensures Do(After(c, run), Poll(n, got)).nodes[n].phase == Started <==> After(c, run).nodes[n].count == c.topic[0]
  {
    AgreedAfter(c, run);
    assert After(c, run).topic[..got][0] == c.topic[0];
  }

  /** Node n has left the state in which it publishes for good, until it is launched again. */
  lemma {:induction false} PublishesOnce(c: Cluster, n: nat, run: seq<Step>)
    requires n in c.nodes && (c.nodes[n].phase.Checking? || c.nodes[n].phase.Started? || c.nodes[n].phase.Stopped?)
    requires Possible(c, run) && forall i :: 0 <= i < |run| && run[i].n == n ==> !run[i].Launch?
    ensures forall i :: 0 <= i < |run| && run[i].n == n ==> run[i].Poll?
    decreases run
  {
    if run != [] {
      var rest := run[1..];
      assert forall i :: 0 <= i < |rest| ==> rest[i] == run[i + 1];
      PublishesOnce(Do(c, run[0]), n, rest);
      assert forall i :: 1 <= i < |run| ==> run[i] == rest[i - 1];
    }
  }

  /** A launched node publishes its count at most once, whether that fails or not. */
  lemma OnePublication(c: Cluster, n: nat, publish: Step, run: seq<Step>)
    requires (publish.Publish? || publish.PublishFails?) && publish.n == n && Enabled(c, publish)
    requires Possible(Do(c, publish), run) && forall i :: 0 <= i < |run| && run[i].n == n ==> !run[i].Launch?
    ensures forall i :: 0 <= i < |run| && run[i].n == n ==> run[i].Poll?
    ensures |Do(c, publish).topic| <= |c.topic| + 1
  {
    PublishesOnce(Do(c, publish), n, run);
  }

  /** None of the steps is one of node n. */
  ghost predicate StaysOut(run: seq<Step>, n: nat) {
    forall i :: 0 <= i < |run| ==> run[i].n != n
  }

  lemma {:induction false} OutsiderUnchanged(c: Cluster, run: seq<Step>, n: nat)
    requires n in c.nodes && Possible(c, run) && StaysOut(run, n)
    ensures n in After(c, run).nodes && After(c, run).nodes[n] == c.nodes[n] && c.topic <= After(c, run).topic
    decreases run
  {
    if run != [] {
      assert forall i :: 0 <= i < |run[1..]| ==> run[1..][i] == run[i + 1];
      OutsiderUnchanged(Do(c, run[0]), run[1..], n);
    }
  }

  /** Publishing adds the own count to the end of the topic. Whatever the others do then, there is something to poll,
      and polling it starts the node if and only if its count is that of the first record: the own one, when the topic
      was empty. */
  lemma PublisherPolls(c: Cluster, n: nat, run: seq<Step>, got: nat)
    requires Enabled(c, Publish(n)) && Possible(Do(c, Publish(n)), run) && StaysOut(run, n)
    requires 0 < got <= |After(Do(c, Publish(n)), run).topic|
    ensures var c' := After(Do(c, Publish(n)), run); var count := c.nodes[n].count;
            && c.topic + [count] <= c'.topic && Enabled(c', Poll(n, got))
            && (Do(c', Poll(n, got)).nodes[n] == Node(count, Started) <==> c.topic == [] || c.topic[0] == count)
  {
    var count := c.nodes[n].count;
    var c1 := Do(c, Publish(n));
    OutsiderUnchanged(c1, run, n);
    var c' := After(c1, run);
    assert c'.topic[..got][0] == c'.topic[0] == (c.topic + [count])[0];
  }

  /** No publication of the run fails. */
  ghost predicate Smooth(run: seq<Step>) {
    forall i :: 0 <= i < |run| ==> !run[i].PublishFails?
  }

  lemma RunOne(c: Cluster, s: Step, run: seq<Step>)
    requires Enabled(c, s) && Possible(Do(c, s), run)
    ensures Possible(c, [s] + run) && After(c, [s] + run) == After(Do(c, s), run)
  {
    assert ([s] + run)[1..] == run;
  }

  /** A new node starts by publishing its count, when the topic is empty, or just by polling. */
  lemma CanStart(c: Cluster, n: nat, count: int) returns (run: seq<Step>)
    requires c.topic == [] || c.topic[0] == count
    ensures Possible(c, run) && Smooth(run)
    ensures n in After(c, run).nodes && After(c, run).nodes[n] == Node(count, Started)
  {
    var launch, look, publish, check := Launch(n, count), Poll(n, 0), Publish(n), Poll(n, 1);
    var c1 := Do(c, launch);
    var c2 := Do(c1, look);
    var c3 := Do(c2, publish);
    assert c3.topic[..1][0] == c3.topic[0] == count;
    var c4 := Do(c3, check);
    assert c4.nodes[n] == Node(count, Started);
    RunOne(c3, check, []);
    RunOne(c2, publish, [check] + []);
    RunOne(c1, look, [publish] + ([check] + []));
    RunOne(c, launch, [look] + ([publish] + ([check] + [])));
    run := [launch] + ([look] + ([publish] + ([check] + [])));
  }

  /** A node with this count can be brought to start, without any failure, if and only if no other count came first. */
  lemma CanStartIff(c: Cluster, n: nat, count: int)
    requires Agreed(c)
    ensures (exists run :: && Possible(c, run) && Smooth(run)
                           && n in After(c, run).nodes && After(c, run).nodes[n] == Node(count, Started)) <==>
            c.topic == [] || c.topic[0] == count
  {
    if c.topic == [] || c.topic[0] == count {
      var run := CanStart(c, n, count);
    }
    forall run | Possible(c, run) && n in After(c, run).nodes && After(c, run).nodes[n] == Node(count, Started)
      ensures c.topic == [] || c.topic[0] == count
    {
      AgreedAfter(c, run);
    }
  }
}
