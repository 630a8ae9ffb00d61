/** Sequences without repetitions, and positions in order. */
module Sequences {
  predicate NoDuplicates<T(==)>(s: seq<T>) {
    forall i, j :: 0 <= i < j < |s| ==> s[i] != s[j]
  }

  lemma NoDuplicatesConcat<T>(a: seq<T>, b: seq<T>)
    requires NoDuplicates(a) && NoDuplicates(b) && forall x :: x in a ==> x !in b
    ensures NoDuplicates(a + b)
  {
    forall i, j | 0 <= i < j < |a + b|
      ensures (a + b)[i] != (a + b)[j]
    {
      if i < |a| <= j {
        assert a[i] in a && b[j - |a|] in b;
      }
    }
  }

  /** Positions in strictly increasing order. */
  ghost predicate Increasing(at: seq<nat>) {
    forall i, j :: 0 <= i < j < |at| ==> at[i] < at[j]
  }

  lemma FirstIsLeast(at: seq<nat>)
    requires Increasing(at) && at != []
    ensures Increasing(at[1..]) && forall p :: p in at[1..] <==> p in at && p != at[0]
    ensures forall p :: p in at ==> at[0] <= p
  {
    assert forall i :: 0 <= i < |at[1..]| ==> at[1..][i] == at[i + 1];
    assert at == [at[0]] + at[1..];
  }

  /** There is one way to put a set of positions in order. */
  lemma {:induction false} IncreasingUnique(a: seq<nat>, b: seq<nat>)
    requires Increasing(a) && Increasing(b) && forall p :: p in a <==> p in b
    ensures a == b
    decreases a
  {
    assert (a != [] ==> a[0] in a) && (b != [] ==> b[0] in b);
    if a != [] && b != [] {
      FirstIsLeast(a);
      FirstIsLeast(b);
      IncreasingUnique(a[1..], b[1..]);
      assert a == [a[0]] + a[1..] && b == [b[0]] + b[1..];
    }
  }

  /** r holds the elements of s that are to be kept, in order and with their repetitions, and `at` their positions. */
  ghost predicate FilteredAt<T>(s: seq<T>, keep: T -> bool, r: seq<T>, at: seq<nat>) {
    && |at| == |r| && Increasing(at)
    && (forall i: nat :: i in at <==> i < |s| && keep(s[i]))
    && (forall j :: 0 <= j < |at| ==> at[j] < |s| && r[j] == s[at[j]])
  }

  ghost predicate Filtered<T>(s: seq<T>, keep: T -> bool, r: seq<T>) {
    exists at: seq<nat> :: FilteredAt(s, keep, r, at)
  }

  lemma FilteredNothing<T>(keep: T -> bool)
    ensures Filtered([], keep, [])
  {
    assert FilteredAt([], keep, [], []);
  }

  lemma FilteredNext<T>(s: seq<T>, keep: T -> bool, r: seq<T>, x: T)
    requires Filtered(s, keep, r)
    ensures Filtered(s + [x], keep, r + if keep(x) then [x] else [])
  {
    var at: seq<nat> :| FilteredAt(s, keep, r, at);
    assert forall j :: 0 <= j < |at| ==> at[j] in at;
    var at' := at + if keep(x) then [|s|] else [];
    assert FilteredAt(s + [x], keep, r + if keep(x) then [x] else [], at');
  }

  /** Filtering leaves no freedom. */
  lemma FilteredOnce<T>(s: seq<T>, keep: T -> bool, r: seq<T>, o: seq<T>)
    requires Filtered(s, keep, r) && Filtered(s, keep, o)
    ensures r == o
  {
    var a: seq<nat> :| FilteredAt(s, keep, r, a);
    var b: seq<nat> :| FilteredAt(s, keep, o, b);
    IncreasingUnique(a, b);
  }
}
