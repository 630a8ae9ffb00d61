/** Byte strings and their lexicographic order: the order of the keys of an embedded key-value store. */
module ByteStrings {
  type byte = bv8
  type Bytes = seq<byte>

  const NUL: byte := 0

  predicate NulFree(s: Bytes) {
    NUL !in s
  }

  /** Bytewise lexicographic order, a proper prefix coming first. */
  predicate Leq(a: Bytes, b: Bytes) {
    a == [] || (b != [] && (a[0] < b[0] || (a[0] == b[0] && Leq(a[1..], b[1..]))))
  }

  predicate Less(a: Bytes, b: Bytes) {
    a != b && Leq(a, b)
  }

  lemma {:induction false} LeqReflexive(a: Bytes)
    ensures Leq(a, a)
  {
    if a != [] {
      LeqReflexive(a[1..]);
    }
  }

  lemma {:induction false} LeqTotal(a: Bytes, b: Bytes)
    ensures Leq(a, b) || Leq(b, a)
  {
    if a != [] && b != [] && a[0] == b[0] {
      LeqTotal(a[1..], b[1..]);
    }
  }

  lemma {:induction false} LeqAntisymmetric(a: Bytes, b: Bytes)
    requires Leq(a, b) && Leq(b, a)
    ensures a == b
  {
    if a != [] {
      LeqAntisymmetric(a[1..], b[1..]);
      assert a == [a[0]] + a[1..];
    }
  }

  lemma {:induction false} LeqTransitive(a: Bytes, b: Bytes, c: Bytes)
    requires Leq(a, b) && Leq(b, c)
    ensures Leq(a, c)
  {
    if a != [] && a[0] == b[0] == c[0] {
      LeqTransitive(a[1..], b[1..], c[1..]);
    }
  }

  lemma {:induction false} LeqCommonPrefix(p: Bytes, a: Bytes, b: Bytes)
    ensures Leq(p + a, p + b) <==> Leq(a, b)
  {
    if p == [] {
      assert p + a == a && p + b == b;
    } else {
      assert (p + a)[1..] == p[1..] + a && (p + b)[1..] == p[1..] + b;
      LeqCommonPrefix(p[1..], a, b);
    }
  }

  lemma {:induction false} PrefixIsLeq(p: Bytes, a: Bytes)
    requires p <= a
    ensures Leq(p, a)
  {
    if p != [] {
      PrefixIsLeq(p[1..], a[1..]);
    }
  }

  /** The strings with a given prefix are contiguous: anything between the prefix and one of them has it too. */
  lemma {:induction false} PrefixContiguous(p: Bytes, y: Bytes, z: Bytes)
    requires p <= z && Leq(p, y) && Leq(y, z)
    ensures p <= y
  {
    if p != [] {
      assert p[0] == z[0] && p[1..] <= z[1..];
      PrefixContiguous(p[1..], y[1..], z[1..]);
      assert p == [p[0]] + p[1..] && y == [y[0]] + y[1..];
    }
  }

  predicate IsLeast(k: Bytes, s: set<Bytes>) {
    k in s && forall x :: x in s ==> Leq(k, x)
  }

  lemma {:induction false} LeastExists(s: set<Bytes>) returns (k: Bytes)
    requires s != {}
    ensures IsLeast(k, s)
  {
    hide Leq;
    var a :| a in s;
    var rest := s - {a};
    assert forall x :: x in s ==> x == a || x in rest;
    LeqReflexive(a);
    if rest == {} {
      return a;
    }
    k := LeastExists(rest);
    LeqTotal(a, k);
    if Leq(a, k) {
      forall x | x in rest
        ensures Leq(a, x)
      {
        LeqTransitive(a, k, x);
      }
      return a;
    }
  }

  lemma HasLeast(s: set<Bytes>)
    requires s != {}
    ensures exists k :: k in s && IsLeast(k, s)
  {
    var k := LeastExists(s);
  }

  lemma LeastUnique(k: Bytes, l: Bytes, s: set<Bytes>)
    requires IsLeast(k, s) && IsLeast(l, s)
    ensures k == l
  {
    LeqAntisymmetric(k, l);
  }

  function Least(s: set<Bytes>): (k: Bytes)
    requires s != {}
    ensures IsLeast(k, s)
  {
    HasLeast(s);
    assert forall k, l :: IsLeast(k, s) && IsLeast(l, s) ==> k == l by {
      forall k, l | IsLeast(k, s) && IsLeast(l, s)
        ensures k == l
      {
        LeastUnique(k, l, s);
      }
    }
    var k :| k in s && IsLeast(k, s);
    k
  }

  ghost predicate Ascending(keys: seq<Bytes>) {
    forall i, j :: 0 <= i < j < |keys| ==> Less(keys[i], keys[j])
  }

  /** The elements of a set of keys as an iterator visits them. */
  function Sorted(s: set<Bytes>): (keys: seq<Bytes>)
    ensures Ascending(keys)
    ensures forall k :: k in keys <==> k in s
    decreases |s|
  {
    if s == {} then [] else
      var k := Least(s);
      assert s == (s - {k}) + {k};
      var rest := Sorted(s - {k});
      assert forall i :: 0 <= i < |rest| ==> rest[i] in rest;
      [k] + rest
  }

  /** Two ascending sequences of the same keys are the same. */
  lemma {:induction false} AscendingUnique(a: seq<Bytes>, b: seq<Bytes>)
    requires Ascending(a) && Ascending(b) && forall k :: k in a <==> k in b
    ensures a == b
  {
    FirstMember(a);
    FirstMember(b);
    if a != [] && b != [] {
      FirstIsLeast(a, b[0]);
      FirstIsLeast(b, a[0]);
      LeqAntisymmetric(a[0], b[0]);
      AscendingTail(a);
      AscendingTail(b);
      AscendingUnique(a[1..], b[1..]);
    }
  }

  lemma FirstMember(a: seq<Bytes>)
    ensures a == [] || a[0] in a
  {
  }

  lemma FirstIsLeast(a: seq<Bytes>, k: Bytes)
    requires Ascending(a) && k in a
    ensures Leq(a[0], k)
  {
    LeqReflexive(k);
  }

  lemma AscendingTail(a: seq<Bytes>)
    requires Ascending(a) && a != []
    ensures Ascending(a[1..])
    ensures forall k :: k in a[1..] <==> k in a && k != a[0]
  {
    assert a == [a[0]] + a[1..];
    assert forall i :: 0 <= i < |a[1..]| ==> a[1..][i] == a[i + 1] && Less(a[0], a[i + 1]);
  }
}

/** Bytes as numbers. */
module Bytewise {
  /** The byte of a number, found by counting up to it. */
  function ByteOf(x: nat): bv8
    requires x < 256
  {
    if x == 0 then 0 else ByteOf(x - 1) + 1
  }

  lemma Successor(b: bv8)
    requires b as int < 255
    ensures (b + 1) as int == b as int + 1
  {
  }

  lemma {:induction false} ByteRoundTrip(x: nat)
    requires x < 256
    ensures ByteOf(x) as int == x
  {
    if x != 0 {
      ByteRoundTrip(x - 1);
      Successor(ByteOf(x - 1));
    }
  }
}
