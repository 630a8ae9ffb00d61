/** The table of remote partitions that a node keeps from the advertisements of its peers. */
module Gossip {
  import opened Sequences

  type Addr = string
  type int32 = x: int | -0x8000_0000 <= x < 0x8000_0000
  type Table = map<int32, seq<Addr>>

  predicate Lists(t: Table, p: int32, a: Addr) {
    p in t && a in t[p]
  }

  /** The list with every occurrence of an address filtered out. */
  function Without(addrs: seq<Addr>, a: Addr): (r: seq<Addr>)
    ensures forall b :: b in r <==> b in addrs && b != a
    ensures a !in addrs ==> r == addrs
  {
    if addrs == [] then []
    else
      assert addrs == [addrs[0]] + addrs[1..];
      (if addrs[0] != a then [addrs[0]] else []) + Without(addrs[1..], a)
  }

  lemma {:induction false} WithoutKeepsDistinct(addrs: seq<Addr>, a: Addr)
    requires NoDuplicates(addrs)
    ensures NoDuplicates(Without(addrs, a))
  {
    if addrs != [] {
      assert forall i :: 0 <= i < |addrs[1..]| ==> addrs[1..][i] == addrs[i + 1];
      WithoutKeepsDistinct(addrs[1..], a);
      assert addrs[0] !in addrs[1..];
    }
  }

  /** The list with an address left out: the others in order, and as often as before. */
  ghost predicate LeavesOut(addrs: seq<Addr>, a: Addr, rest: seq<Addr>) {
    Filtered(addrs, (b: Addr) => b != a, rest)
  }

  lemma {:induction false} WithoutNext(addrs: seq<Addr>, b: Addr, a: Addr)
    ensures Without(addrs + [b], a) == Without(addrs, a) + if b != a then [b] else []
  {
    if addrs == [] {
      assert addrs + [b] == [b];
    } else {
      assert (addrs + [b])[1..] == addrs[1..] + [b];
      WithoutNext(addrs[1..], b, a);
      var head := if addrs[0] != a then [addrs[0]] else [];
      assert Without(addrs + [b], a) == head + Without(addrs[1..] + [b], a);
      assert Without(addrs, a) == head + Without(addrs[1..], a);
    }
  }

  lemma {:induction false} WithoutIff(addrs: seq<Addr>, a: Addr, rest: seq<Addr>)
    ensures rest == Without(addrs, a) <==> LeavesOut(addrs, a, rest)
    decreases |addrs|
  {
    hide Filtered, FilteredAt;
    var keep := (b: Addr) => b != a;
    if addrs == [] {
      FilteredNothing(keep);
    } else {
      var n := |addrs| - 1;
      assert addrs == addrs[..n] + [addrs[n]];
      WithoutIff(addrs[..n], a, Without(addrs[..n], a));
      WithoutNext(addrs[..n], addrs[n], a);
      FilteredNext(addrs[..n], keep, Without(addrs[..n], a), addrs[n]);
    }
    if LeavesOut(addrs, a, rest) {
      FilteredOnce(addrs, keep, rest, Without(addrs, a));
    }
  }

  lemma {:induction false} WithoutKeepsOthers(addrs: seq<Addr>, a: Addr)
    ensures forall b :: multiset(Without(addrs, a))[b] == if b == a then 0 else multiset(addrs)[b]
    decreases |addrs|
  {
    if addrs != [] {
      var n := |addrs| - 1;
      assert addrs == addrs[..n] + [addrs[n]];
      WithoutKeepsOthers(addrs[..n], a);
      WithoutNext(addrs[..n], addrs[n], a);
    }
  }

  /** The table of t with an address left out of every list, and nothing else changed. */
  ghost predicate IsDropped(t: Table, a: Addr, t': Table) {
    && t'.Keys == t.Keys
    && (forall p :: !Lists(t', p, a))
    && (forall p :: p in t ==> LeavesOut(t[p], a, t'[p]))
    && (forall p, b :: p in t && b != a ==> multiset(t'[p])[b] == multiset(t[p])[b])
  }

  lemma DropIff(t: Table, a: Addr, t': Table)
    ensures t' == Drop(t, a) <==> IsDropped(t, a, t')
  {
    hide LeavesOut;
    forall p | p in t && p in t'
      ensures t'[p] == Without(t[p], a) <==> LeavesOut(t[p], a, t'[p])
    {
      WithoutIff(t[p], a, t'[p]);
    }
    forall p | p in t
      ensures forall b :: multiset(Without(t[p], a))[b] == if b == a then 0 else multiset(t[p])[b]
    {
      WithoutKeepsOthers(t[p], a);
    }
  }

  /** The advertised partitions that are not keys of the table, in the order of the advertisement. */
  function Unknown(t: Table, parts: seq<int32>): (r: seq<int32>) {
    if parts == [] then [] else (if parts[0] !in t then [parts[0]] else []) + Unknown(t, parts[1..])
  }

  lemma {:induction false} UnknownMembers(t: Table, parts: seq<int32>)
    ensures forall p :: p in Unknown(t, parts) <==> p in parts && p !in t
    decreases parts
  {
    if parts != [] {
      UnknownMembers(t, parts[1..]);
      assert parts == [parts[0]] + parts[1..];
    }
  }

  lemma {:induction false} UnknownNext(t: Table, parts: seq<int32>, p: int32)
    ensures Unknown(t, parts + [p]) == Unknown(t, parts) + if p !in t then [p] else []
    decreases parts
  {
    if parts == [] {
      assert parts + [p] == [p];
    } else {
      assert (parts + [p])[1..] == parts[1..] + [p];
      UnknownNext(t, parts[1..], p);
      var head := if parts[0] !in t then [parts[0]] else [];
      assert Unknown(t, parts + [p]) == head + Unknown(t, parts[1..] + [p]);
      assert Unknown(t, parts) == head + Unknown(t, parts[1..]);
    }
  }

  /** They come in the order of the advertisement, and as often as it names them. */
  lemma {:induction false} UnknownIff(t: Table, parts: seq<int32>, some: seq<int32>)
    ensures some == Unknown(t, parts) <==> Filtered(parts, (p: int32) => p !in t, some)
    decreases |parts|
  {
    hide Filtered, FilteredAt;
    var keep := (p: int32) => p !in t;
    if parts == [] {
      FilteredNothing(keep);
    } else {
      var n := |parts| - 1;
      assert parts == parts[..n] + [parts[n]];
      UnknownIff(t, parts[..n], Unknown(t, parts[..n]));
      UnknownNext(t, parts[..n], parts[n]);
      FilteredNext(parts[..n], keep, Unknown(t, parts[..n]), parts[n]);
    }
    if Filtered(parts, keep, some) {
      FilteredOnce(parts, keep, some, Unknown(t, parts));
    }
  }

  /** Adding stops after the first partition that was not a key. */
  function AddAll(t: Table, ps: seq<int32>, a: Addr): Table {
    if ps == [] then t
    else if ps[0] !in t then t[ps[0] := [a]]
    else AddAll(t[ps[0] := t[ps[0]] + [a]], ps[1..], a)
  }

  /** Removing stops at the first partition that is not a key. */
  function RemoveAll(t: Table, ps: seq<int32>, a: Addr): Table {
    if ps == [] || ps[0] !in t then t
    else RemoveAll(t[ps[0] := Without(t[ps[0]], a)], ps[1..], a)
  }

  function Drop(t: Table, a: Addr): Table {
    map p | p in t :: Without(t[p], a)
  }

  /** What a diff may return: known partitions come in the arbitrary order of a map, unknown ones follow in theirs. */
  ghost predicate IsDifference(t: Table, parts: seq<int32>, a: Addr, news: seq<int32>, removed: seq<int32>) {
    && AreRemoved(t, {}, parts, a, removed)
    && exists n :: 0 <= n <= |news| && IsNewSplit(t, parts, a, news[..n], news[n..])
  }

  ghost predicate AreNewKnown(t: Table, rest: set<int32>, parts: seq<int32>, a: Addr, known: seq<int32>) {
    NoDuplicates(known) && forall p :: p in known <==> p in t && p !in rest && !Lists(t, p, a) && p in parts
  }

  ghost predicate AreRemoved(t: Table, rest: set<int32>, parts: seq<int32>, a: Addr, removed: seq<int32>) {
    forall p :: p in removed <==> p !in rest && Lists(t, p, a) && p !in parts
  }

  ghost predicate IsNewSplit(t: Table, parts: seq<int32>, a: Addr, known: seq<int32>, unknown: seq<int32>) {
    AreNewKnown(t, {}, parts, a, known) && unknown == Unknown(t, parts)
  }

  /** The table after one advertisement is handled without interruption: every known partition is put right, and
      at most one unknown partition becomes known. */
  function Handled(t: Table, parts: seq<int32>, a: Addr): Table {
    var unknown := Unknown(t, parts);
    if unknown == [] then AllRighted(t, parts, a) else AllRighted(t, parts, a)[unknown[0] := [a]]
  }

  function AllRighted(t: Table, parts: seq<int32>, a: Addr): Table {
    map p | p in t :: Righted(t[p], p in parts, a)
  }

  function Righted(addrs: seq<Addr>, advertised: bool, a: Addr): seq<Addr> {
    if a in addrs then (if advertised then addrs else Without(addrs, a))
    else if advertised then addrs + [a] else addrs
  }

  class Manager {
    var remotePartitions: Table

    constructor ()
      ensures remotePartitions == map[]
    {
      remotePartitions := map[];
    }

    method CheckForPartitionDifference(partitions: seq<int32>, addr: Addr)
      returns (newPartitions: seq<int32>, removedPartitions: seq<int32>)
      ensures IsDifference(remotePartitions, partitions, addr, newPartitions, removedPartitions)
    {
      newPartitions, removedPartitions := [], [];
      var rest := remotePartitions.Keys;
      while rest != {}
        invariant rest <= remotePartitions.Keys
        invariant AreNewKnown(remotePartitions, rest, partitions, addr, newPartitions)
        invariant AreRemoved(remotePartitions, rest, partitions, addr, removedPartitions)
        decreases rest
      {
        var partition :| partition in rest;
        rest := rest - {partition};
        var thinkAddrHasPart := addr in remotePartitions[partition];
        var addrHasPart := partition in partitions;
        if thinkAddrHasPart && !addrHasPart {
          removedPartitions := removedPartitions + [partition];
        } else if !thinkAddrHasPart && addrHasPart {
          newPartitions := newPartitions + [partition];
        }
      }
      ghost var known := newPartitions;
      newPartitions := AppendUnknown(partitions, newPartitions);
      assert newPartitions[..|known|] == known && newPartitions[|known|..] == Unknown(remotePartitions, partitions);
    }

    /** The second loop of the diff. */
    method AppendUnknown(partitions: seq<int32>, known: seq<int32>) returns (newPartitions: seq<int32>)
      ensures newPartitions == known + Unknown(remotePartitions, partitions)
    {
      newPartitions := known;
      ghost var found: seq<int32> := [];
      for i := 0 to |partitions|
        invariant newPartitions == known + found
        invariant found + Unknown(remotePartitions, partitions[i..]) == Unknown(remotePartitions, partitions)
      {
        assert partitions[i..][1..] == partitions[i + 1..];
        if partitions[i] !in remotePartitions {
          newPartitions := newPartitions + [partitions[i]];
          found := found + [partitions[i]];
        }
      }
      assert found == Unknown(remotePartitions, partitions);
    }

    method AddRemotePartitions(partitions: seq<int32>, addr: Addr)
      modifies this
      ensures remotePartitions == AddAll(old(remotePartitions), partitions, addr)
    {
      for i := 0 to |partitions|
        invariant AddAll(remotePartitions, partitions[i..], addr) == AddAll(old(remotePartitions), partitions, addr)
      {
        var partition := partitions[i];
        assert partitions[i..][1..] == partitions[i + 1..];
        if partition !in remotePartitions {
          remotePartitions := remotePartitions[partition := [addr]];
          return;
        }
        remotePartitions := remotePartitions[partition := remotePartitions[partition] + [addr]];
      }
    }

    method RemoveRemotePartitions(partitions: seq<int32>, addr: Addr)
      modifies this
      ensures remotePartitions == RemoveAll(old(remotePartitions), partitions, addr)
    {
      for i := 0 to |partitions|
        invariant RemoveAll(remotePartitions, partitions[i..], addr) ==
                  RemoveAll(old(remotePartitions), partitions, addr)
      {
        var partition := partitions[i];
        assert partitions[i..][1..] == partitions[i + 1..];
        if partition !in remotePartitions {
          return;
        }
        remotePartitions := remotePartitions[partition := Without(remotePartitions[partition], addr)];
      }
    }

    method RemovePartitionsForAddr(addr: Addr)
      modifies this
      ensures IsDropped(old(remotePartitions), addr, remotePartitions)
      ensures remotePartitions == Drop(old(remotePartitions), addr)
    {
      hide IsDropped;
      var t := remotePartitions;
      var rest := t.Keys;
      var parts: set<int32> := {};
      while rest != {}
        invariant rest <= t.Keys && remotePartitions == t && parts <= t.Keys
        invariant forall p :: p in parts <==> p !in rest && Lists(t, p, addr)
        decreases rest
      {
        var part :| part in rest;
        rest := rest - {part};
        if addr in t[part] {
          parts := parts + {part};
        }
      }
      while parts != {}
        invariant remotePartitions.Keys == t.Keys && parts <= t.Keys
        invariant forall p :: p in t ==> remotePartitions[p] == if p in parts then t[p] else Without(t[p], addr)
        decreases parts
      {
        var part :| part in parts;
        parts := parts - {part};
        remotePartitions := remotePartitions[part := Without(remotePartitions[part], addr)];
      }
      DropIff(t, addr, remotePartitions);
    }

    /** An advertisement, handled without interruption. */
    method HandleAdvertisement(partitions: seq<int32>, addr: Addr)
      modifies this
      ensures remotePartitions == Handled(old(remotePartitions), partitions, addr)
    {
      var newParts, removedParts := CheckForPartitionDifference(partitions, addr);
      if |removedParts| > 0 {
        RemoveRemotePartitions(removedParts, addr);
      }
      if |newParts| > 0 {
        AddRemotePartitions(newParts, addr);
      }
      HandledByParts(old(remotePartitions), partitions, addr, newParts, removedParts);
    }

    /** A uniformly chosen index picks one of the listed addresses; there is none exactly when nobody is listed. */
    method GetRandomRemotePartition(partition: int32, randInd: nat) returns (found: bool, addr: Addr)
      requires partition in remotePartitions && remotePartitions[partition] != [] ==>
               randInd < |remotePartitions[partition]|
      ensures found ==> Lists(remotePartitions, partition, addr) && addr == remotePartitions[partition][randInd]
      ensures !found <==> forall a :: !Lists(remotePartitions, partition, a)
    {
      var remoteParts := if partition in remotePartitions then remotePartitions[partition] else [];
      if remoteParts == [] {
        return false, "";
      }
      assert Lists(remotePartitions, partition, remoteParts[randInd]);
      return true, remoteParts[randInd];
    }
  }

  // The three sections, run one after the other, give Handled whatever the order of the map.

  function RemovedFrom(t: Table, ps: seq<int32>, a: Addr): Table {
    map p | p in t :: if p in ps then Without(t[p], a) else t[p]
  }

  function AddedTo(t: Table, ps: seq<int32>, a: Addr): Table {
    map p | p in t :: if p in ps then t[p] + [a] else t[p]
  }

  lemma {:induction false} RemoveAllOfKeys(t: Table, ps: seq<int32>, a: Addr)
    requires forall p :: p in ps ==> p in t
    ensures RemoveAll(t, ps, a) == RemovedFrom(t, ps, a)
    decreases ps
  {
    if ps == [] {
      assert RemovedFrom(t, ps, a) == t;
    } else {
      var t' := t[ps[0] := Without(t[ps[0]], a)];
      assert ps == [ps[0]] + ps[1..];
      RemoveAllOfKeys(t', ps[1..], a);
      assert RemovedFrom(t', ps[1..], a) == RemovedFrom(t, ps, a);
    }
  }

  lemma AddOne(t: Table, p: int32, ps: seq<int32>, a: Addr)
    requires p in t && p !in ps
    ensures AddedTo(t[p := t[p] + [a]], ps, a) == AddedTo(t, [p] + ps, a)
  {
  }

  lemma {:induction false} AddAllOfKeys(t: Table, ps: seq<int32>, rest: seq<int32>, a: Addr)
    requires NoDuplicates(ps) && forall p :: p in ps ==> p in t
    ensures AddAll(t, ps + rest, a) == AddAll(AddedTo(t, ps, a), rest, a)
    decreases ps
  {
    if ps == [] {
      assert ps + rest == rest;
      assert AddedTo(t, ps, a) == t;
    } else {
      var p, qs := ps[0], ps[1..];
      assert (ps + rest)[0] == p && (ps + rest)[1..] == qs + rest;
      assert ps == [p] + qs && p !in qs;
      AddAllOfKeys(t[p := t[p] + [a]], qs, rest, a);
      AddOne(t, p, qs, a);
    }
  }

  /** Removing and adding on known partitions puts each of them right. */
  lemma KnownAreRighted(t: Table, parts: seq<int32>, a: Addr, known: seq<int32>, removed: seq<int32>)
    requires AreRemoved(t, {}, parts, a, removed) && AreNewKnown(t, {}, parts, a, known)
    ensures AddedTo(RemovedFrom(t, removed, a), known, a) == AllRighted(t, parts, a)
  {
    forall p | p in t
      ensures AddedTo(RemovedFrom(t, removed, a), known, a)[p] == Righted(t[p], p in parts, a)
    {
      assert Lists(t, p, a) <==> a in t[p];
    }
  }

  lemma HandledByParts(t: Table, parts: seq<int32>, a: Addr, news: seq<int32>, removed: seq<int32>)
    requires IsDifference(t, parts, a, news, removed)
    ensures AddAll(RemoveAll(t, removed, a), news, a) == Handled(t, parts, a)
  {
    var n :| 0 <= n <= |news| && IsNewSplit(t, parts, a, news[..n], news[n..]);
    var known, unknown := news[..n], news[n..];
    assert news == known + unknown;
    RemoveAllOfKeys(t, removed, a);
    KnownAreRighted(t, parts, a, known, removed);
    AddAllOfKeys(RemovedFrom(t, removed, a), known, unknown, a);
    UnknownMembers(t, parts);
    assert unknown != [] ==> unknown[0] in unknown;
  }
}
