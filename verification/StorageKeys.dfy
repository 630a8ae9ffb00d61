/** The layout of a partition's keyspace: record keys, the internal offset key, and the offset codec. */
module StorageKeys {
  import opened ByteStrings
  import opened Splitting
  import opened Bytewise

  datatype SplitResult = Parts(pk: Bytes, sk: Bytes) | InvalidKey

  /** "~", put in front of every record key. */
  const KEY_PREFIX: Bytes := [0x7e]

  /** "last_offset" */
  const LAST_OFFSET_KEY: Bytes := [0x6c, 0x61, 0x73, 0x74, 0x5f, 0x6f, 0x66, 0x66, 0x73, 0x65, 0x74]

  function FormatRecordKey(pk: Bytes, sk: Bytes): Bytes {
    KEY_PREFIX + pk + [NUL] + sk
  }

  function PkFromStorageKey(storagePk: Bytes): Bytes
    requires |KEY_PREFIX| <= |storagePk|
  {
    storagePk[|KEY_PREFIX|..]
  }

  /** Taking the key prefix off an empty first piece would be out of range. */
  function SplitRecordKey(recordKey: Bytes): SplitResult
    requires recordKey != [] && recordKey[0] != NUL
  {
    var parts := Split(recordKey, NUL);
    if |parts| != 2 then InvalidKey else Parts(PkFromStorageKey(parts[0]), parts[1])
  }

  /** A record key never collides with the internal key that holds the offset. */
  lemma RecordKeyIsNotInternal(pk: Bytes, sk: Bytes)
    ensures FormatRecordKey(pk, sk) != LAST_OFFSET_KEY
    ensures !(KEY_PREFIX <= LAST_OFFSET_KEY)
  {
    assert FormatRecordKey(pk, sk)[0] == 0x7e && LAST_OFFSET_KEY[0] == 0x6c;
  }

  /** Splitting undoes formatting exactly for NUL-free keys, and rejects every other key. */
  lemma SplitUndoesFormat(pk: Bytes, sk: Bytes)
    ensures SplitRecordKey(FormatRecordKey(pk, sk)) ==
            if NulFree(pk) && NulFree(sk) then Parts(pk, sk) else InvalidKey
  {
    var a := KEY_PREFIX + pk;
    SplitConcat(a, NUL, sk);
    SplitWithout(a, NUL);
    SplitWithout(sk, NUL);
    assert NulFree(pk) <==> NulFree(a) by {
      assert forall b :: b in a <==> b in KEY_PREFIX || b in pk;
    }
    assert PkFromStorageKey(a) == pk;
  }

  lemma SharedFront(p: Bytes, s: Bytes, q: Bytes, t: Bytes)
    requires FormatRecordKey(p, s) == FormatRecordKey(q, t) && |p| <= |q|
    ensures p == q || p + [NUL] <= q
  {
    var u, v := FormatRecordKey(p, s), FormatRecordKey(q, t);
    assert u[1..1 + |p|] == p && u[1 + |p|] == NUL;
    assert v[1..1 + |q|] == q;
    assert q[..|p|] == v[1..1 + |p|] == p;
    if |p| < |q| {
      assert q[|p|] == v[1 + |p|];
    } else {
      assert q[..|p|] == q;
    }
  }

  lemma NulExtends(p: Bytes, q: Bytes) returns (s: Bytes)
    requires p + [NUL] <= q
    ensures FormatRecordKey(p, s) == FormatRecordKey(q, [])
  {
    s := q[|p| + 1..] + [NUL];
    assert q == (p + [NUL]) + q[|p| + 1..];
  }

  /** Two partition keys can be given sort keys that collide exactly when one, closed by a NUL, begins the other. */
  lemma CollisionIff(p: Bytes, q: Bytes)
    requires p != q
    ensures (exists s, t :: FormatRecordKey(p, s) == FormatRecordKey(q, t)) <==> p + [NUL] <= q || q + [NUL] <= p
  {
    hide FormatRecordKey;
    if p + [NUL] <= q {
      var s := NulExtends(p, q);
    }
    if q + [NUL] <= p {
      var t := NulExtends(q, p);
    }
    if s, t :| FormatRecordKey(p, s) == FormatRecordKey(q, t) {
      if |p| <= |q| {
        SharedFront(p, s, q, t);
      } else {
        SharedFront(q, t, p, s);
      }
    }
  }

  lemma FormatInjective(p: Bytes, s: Bytes, q: Bytes, t: Bytes)
    requires NulFree(p) && NulFree(q)
    requires FormatRecordKey(p, s) == FormatRecordKey(q, t)
    ensures p == q && s == t
  {
    var u := FormatRecordKey(p, s);
    assert u[1..] == p + [NUL] + s;
    assert FormatRecordKey(q, t)[1..] == q + [NUL] + t;
    FrontUnique(p, s, q, t, NUL);
  }

  ghost predicate PairLeq(p: Bytes, s: Bytes, q: Bytes, t: Bytes) {
    if p == q then Leq(s, t) else Leq(p, q)
  }

  lemma {:induction false} NulTerminatedOrder(p: Bytes, s: Bytes, q: Bytes, t: Bytes)
    requires NulFree(p) && NulFree(q)
    ensures Leq(p + [NUL] + s, q + [NUL] + t) <==> PairLeq(p, s, q, t)
  {
    var a, b := p + [NUL] + s, q + [NUL] + t;
    if p == [] || q == [] {
      if p == q {
        assert a[1..] == s && b[1..] == t;
      }
    } else {
      assert a[1..] == p[1..] + [NUL] + s && b[1..] == q[1..] + [NUL] + t;
      assert p == [p[0]] + p[1..] && q == [q[0]] + q[1..];
      NulTerminatedOrder(p[1..], s, q[1..], t);
      if p == q {
        LeqReflexive(p);
      }
    }
  }

  /** The byte order of encoded keys is the lexicographic order of (pk, sk) pairs. */
  lemma FormatPreservesOrder(p: Bytes, s: Bytes, q: Bytes, t: Bytes)
    requires NulFree(p) && NulFree(q)
    ensures Leq(FormatRecordKey(p, s), FormatRecordKey(q, t)) <==> PairLeq(p, s, q, t)
  {
    assert FormatRecordKey(p, s) == KEY_PREFIX + (p + [NUL] + s);
    assert FormatRecordKey(q, t) == KEY_PREFIX + (q + [NUL] + t);
    LeqCommonPrefix(KEY_PREFIX, p + [NUL] + s, q + [NUL] + t);
    NulTerminatedOrder(p, s, q, t);
  }

  /** A record key lies under a scan's prefix exactly when it has that pk and its sk extends the sk prefix. */
  lemma ScanPrefixIff(pk: Bytes, skPrefix: Bytes, q: Bytes, t: Bytes)
    requires NulFree(pk) && NulFree(q)
    ensures FormatRecordKey(pk, skPrefix) <= FormatRecordKey(q, t) <==> pk == q && skPrefix <= t
  {
    var u, v := FormatRecordKey(pk, skPrefix), FormatRecordKey(q, t);
    if u <= v {
      assert v == FormatRecordKey(pk, skPrefix + v[|u|..]);
      FormatInjective(pk, skPrefix + v[|u|..], q, t);
    }
    if pk == q && skPrefix <= t {
      assert v == u + t[|skPrefix|..];
    }
  }

  // The offset codec: an int64 as eight little-endian bytes of its two's complement.

  const TWO_63: int := 0x8000_0000_0000_0000
  const TWO_64: int := 0x1_0000_0000_0000_0000

  type int64 = x: int | -TWO_63 <= x < TWO_63

  function PutLittleEndian(x: nat, width: nat): (b: Bytes)
    ensures |b| == width
  {
    if width == 0 then [] else [ByteOf(x % 256)] + PutLittleEndian(x / 256, width - 1)
  }

  function LittleEndian(b: Bytes): nat {
    if b == [] then 0 else b[0] as nat + 256 * LittleEndian(b[1..])
  }

  function Pow256(n: nat): nat {
    if n == 0 then 1 else 256 * Pow256(n - 1)
  }

  lemma {:induction false} LittleEndianBound(b: Bytes)
    ensures LittleEndian(b) < Pow256(|b|)
  {
    if b != [] {
      LittleEndianBound(b[1..]);
    }
  }

  lemma {:induction false} LittleEndianRoundTrip(x: nat, width: nat)
    requires x < Pow256(width)
    ensures LittleEndian(PutLittleEndian(x, width)) == x
  {
    if width != 0 {
      var low, high := x % 256, x / 256;
      LittleEndianRoundTrip(high, width - 1);
      ByteRoundTrip(low);
      LittleEndianCons(ByteOf(low), PutLittleEndian(high, width - 1));
    }
  }

  lemma MultipleIsLarge(a: int, d: nat)
    ensures a > 0 ==> a * d >= d
  {
  }

  lemma QuotientUnique(x: nat, q: nat, r: nat, d: nat)
    requires r < d && x == q * d + r
    ensures x / d == q
  {
    var q', r' := x / d, x % d;
    assert (q - q') * d == r' - r;
    MultipleIsLarge(q - q', d);
    MultipleIsLarge(q' - q, d);
  }

  lemma DivideTwice(x: nat, d: nat)
    requires d > 0
    ensures x / 256 / d == x / (256 * d)
  {
    var y := x / 256;
    var q, r := y / d, y % d;
    assert y == q * d + r;
    assert x == q * (256 * d) + (256 * r + x % 256);
    QuotientUnique(x, q, 256 * r + x % 256, 256 * d);
  }

  /** Byte i is the digit of 256^i. */
  lemma {:induction false} DigitAt(x: nat, width: nat, i: nat)
    requires i < width
    ensures Pow256(i) > 0 && PutLittleEndian(x, width)[i] as nat == x / Pow256(i) % 256
    decreases i
  {
    ByteRoundTrip(x % 256);
    if i > 0 {
      DigitAt(x / 256, width - 1, i - 1);
      DivideTwice(x, Pow256(i - 1));
    }
  }

  lemma LittleEndianCons(b: byte, rest: Bytes)
    ensures LittleEndian([b] + rest) == b as nat + 256 * LittleEndian(rest)
  {
    assert ([b] + rest)[1..] == rest;
  }

  lemma Pow256Eight()
    ensures Pow256(8) == TWO_64
  {
    assert Pow256(2) == 65536;
    assert Pow256(4) == 65536 * 65536;
    assert Pow256(6) == 65536 * Pow256(4);
  }

  function EncodeOffset(offset: int64): (b: Bytes)
    ensures |b| == 8
  {
    PutLittleEndian(if offset < 0 then offset + TWO_64 else offset, 8)
  }

  function DecodeOffset(b: Bytes): int64
    requires |b| == 8
  {
    LittleEndianBound(b);
    Pow256Eight();
    var u := LittleEndian(b);
    if u < TWO_63 then u else u - TWO_64
  }

  /** An offset is stored as the digits of its two's complement, the least one first. */
  lemma OffsetBytes(offset: int64, i: nat)
    requires i < 8
    ensures var u := if offset < 0 then offset + TWO_64 else offset;
            Pow256(i) > 0 && EncodeOffset(offset)[i] as nat == u / Pow256(i) % 256
  {
    DigitAt(if offset < 0 then offset + TWO_64 else offset, 8, i);
  }

  /** Every int64 offset survives being written to the store and read back. */
  lemma OffsetRoundTrip(offset: int64)
    ensures DecodeOffset(EncodeOffset(offset)) == offset
  {
    Pow256Eight();
    LittleEndianRoundTrip(if offset < 0 then offset + TWO_64 else offset, 8);
  }
}
