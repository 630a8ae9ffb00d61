/** Murmur2 and the partition of a key. */
module Partitioner {
  import opened ByteStrings

  const SEED: bv32 := 0x9747b28c

  // The steps of the hash.

  function Mul(x: bv32): bv32 { x * 0x5bd1e995 }

  function Xor(x: bv32, y: bv32): bv32 { x ^ y }

  function Shift24(x: bv32): bv32 { x ^ (x >> 24) }

  function Shift13(x: bv32): bv32 { x ^ (x >> 13) }

  function Shift15(x: bv32): bv32 { x ^ (x >> 15) }

  function Pack(b3: byte, b2: byte, b1: byte, b0: byte): bv32 {
    ((b3 as bv32) << 24) + ((b2 as bv32) << 16) + ((b1 as bv32) << 8) + (b0 as bv32)
  }

  function Word(b: Bytes): bv32
    requires |b| >= 4
  {
    Pack(b[3], b[2], b[1], b[0])
  }

  function Scramble(k: bv32): bv32 {
    Mul(Shift24(Mul(k)))
  }

  function Block(h: bv32, k: bv32): bv32 {
    Xor(Mul(h), Scramble(k))
  }

  function High(b: byte): bv32 { (b as bv32) << 16 }

  function Middle(b: byte): bv32 { (b as bv32) << 8 }

  function Low(b: byte): bv32 { b as bv32 }

  function Tail(h: bv32, b: Bytes): bv32
    requires |b| < 4
  {
    if |b| == 0 then h
    else if |b| == 1 then Mul(Xor(h, Low(b[0])))
    else if |b| == 2 then Mul(Xor(Xor(h, Middle(b[1])), Low(b[0])))
    else Mul(Xor(Xor(Xor(h, High(b[2])), Middle(b[1])), Low(b[0])))
  }

  function Finish(h: bv32): bv32 {
    Shift15(Mul(Shift13(h)))
  }

  function Absorb(h: bv32, b: Bytes): bv32
    decreases |b|
  {
    if |b| < 4 then Tail(h, b) else Absorb(Block(h, Word(b)), b[4..])
  }

  /** The length is truncated to 32 bits. */
  function Start(n: nat): bv32 {
    SEED ^ ((n % 0x1_0000_0000) as bv32)
  }

  /** The hash as a fold over little-endian words, then the tail, then the finaliser. */
  function Hash(key: Bytes): bv32 {
    Finish(Absorb(Start(|key|), key))
  }

  method Murmur2(key: Bytes) returns (h: bv32)
    ensures h == Hash(key)
  {
    var b := key;
    h := Start(|b|);
    while |b| >= 4
      invariant Absorb(h, b) == Absorb(Start(|key|), key)
      decreases |b|
    {
      var k := Word(b);
      b := b[4..];
      k := Mul(k);
      k := Shift24(k);
      k := Mul(k);
      h := Mul(h);
      h := Xor(h, k);
    }
    // a switch whose cases fall through
    if |b| == 3 {
      h := Xor(h, High(b[2]));
    }
    if |b| >= 2 {
      h := Xor(h, Middle(b[1]));
    }
    if |b| >= 1 {
      h := Xor(h, Low(b[0]));
      h := Mul(h);
    }
    h := Shift13(h);
    h := Mul(h);
    h := Shift15(h);
  }

  // Every step can be undone. The inverse of 0x5bd1e995 modulo 2^32 is 0xe59b19bd. Each proof states the inverse
  // of the step written out, which is an identity of bit vectors, and leaves the names to congruence.

  function Unmul(x: bv32): bv32 { x * 0xe59b19bd }

  function Unshift13(x: bv32): bv32 { x ^ (x >> 13) ^ (x >> 26) }

  function Unshift15(x: bv32): bv32 { x ^ (x >> 15) ^ (x >> 30) }

  lemma MulUndone(x: bv32)
    ensures Unmul(Mul(x)) == x && Mul(Unmul(x)) == x
  {
    assert Unmul(x * 0x5bd1e995) == x;
    assert Mul(x * 0xe59b19bd) == x;
  }

  lemma XorUndone(x: bv32, y: bv32)
    ensures Xor(x, Xor(x, y)) == y && Xor(Xor(y, x), x) == y
  {
    assert Xor(x, x ^ y) == y;
    assert Xor(y ^ x, x) == y;
  }

  lemma Shift24Undone(x: bv32)
    ensures Shift24(Shift24(x)) == x
  {
    assert Shift24(x ^ (x >> 24)) == x;
  }

  lemma Shift13Undone(x: bv32)
    ensures Unshift13(Shift13(x)) == x && Shift13(Unshift13(x)) == x
  {
    assert Unshift13(x ^ (x >> 13)) == x;
    assert Shift13(x ^ (x >> 13) ^ (x >> 26)) == x;
  }

  lemma Shift15Undone(x: bv32)
    ensures Unshift15(Shift15(x)) == x && Shift15(Unshift15(x)) == x
  {
    assert Unshift15(x ^ (x >> 15)) == x;
    assert Shift15(x ^ (x >> 15) ^ (x >> 30)) == x;
  }

  function Unfinish(h: bv32): bv32 {
    Unshift13(Unmul(Unshift15(h)))
  }

  /** The finaliser is a bijection of the 32-bit words. */
  lemma FinishIsBijective(h: bv32)
    ensures Unfinish(Finish(h)) == h && Finish(Unfinish(h)) == h
  {
    Shift13Undone(h);
    MulUndone(Shift13(h));
    Shift15Undone(Mul(Shift13(h)));
    Shift15Undone(h);
    MulUndone(Unshift15(h));
    Shift13Undone(Unmul(Unshift15(h)));
  }

  function Unscramble(k: bv32): bv32 {
    Unmul(Shift24(Unmul(k)))
  }

  lemma ScrambleIsBijective(k: bv32)
    ensures Unscramble(Scramble(k)) == k && Scramble(Unscramble(k)) == k
  {
    MulUndone(k);
    Shift24Undone(Mul(k));
    MulUndone(Shift24(Mul(k)));
    Shift24Undone(Unmul(k));
    MulUndone(Shift24(Unmul(k)));
  }

  /** A block step is a bijection in the state for a fixed word, and in the word for a fixed state. */
  lemma BlockIsBijective(h: bv32, k: bv32)
    ensures Unmul(Xor(Block(h, k), Scramble(k))) == h
    ensures Block(Unmul(Xor(h, Scramble(k))), k) == h
    ensures Unscramble(Xor(Mul(h), Block(h, k))) == k
    ensures Block(h, Unscramble(Xor(Mul(h), k))) == k
  {
    XorUndone(Scramble(k), Mul(h));
    XorUndone(Scramble(k), h);
    XorUndone(Mul(h), Scramble(k));
    XorUndone(Mul(h), k);
    MulUndone(h);
    MulUndone(Xor(h, Scramble(k)));
    ScrambleIsBijective(k);
    ScrambleIsBijective(Xor(Mul(h), k));
  }

  // The bytes of a word.

  lemma PackInjective(a3: byte, a2: byte, a1: byte, a0: byte, b3: byte, b2: byte, b1: byte, b0: byte)
    requires Pack(a3, a2, a1, a0) == Pack(b3, b2, b1, b0)
    ensures a3 == b3 && a2 == b2 && a1 == b1 && a0 == b0
  {
  }

  lemma XorPackInjective(a2: byte, a1: byte, a0: byte, b2: byte, b1: byte, b0: byte)
    requires ((a2 as bv32) << 16) ^ ((a1 as bv32) << 8) ^ (a0 as bv32) ==
             ((b2 as bv32) << 16) ^ ((b1 as bv32) << 8) ^ (b0 as bv32)
    ensures a2 == b2 && a1 == b1 && a0 == b0
  {
  }

  function Mix3(h: bv32, x: bv32, y: bv32, z: bv32): bv32 {
    Xor(Xor(Xor(h, x), y), z)
  }

  lemma Mix3Undone(h: bv32, x: bv32, y: bv32, z: bv32)
    ensures Xor(Xor(Xor(Mix3(h, x, y, z), z), y), x) == h
  {
    XorUndone(z, Xor(Xor(h, x), y));
    XorUndone(y, Xor(h, x));
    XorUndone(x, h);
  }

  lemma Mix3Xored(h: bv32, x: bv32, y: bv32, z: bv32)
    ensures Xor(h, Mix3(h, x, y, z)) == x ^ y ^ z
  {
    assert Xor(h, x) == h ^ x;
    assert Xor(h ^ x, y) == h ^ x ^ y;
    assert Xor(h ^ x ^ y, z) == h ^ x ^ y ^ z;
    assert Xor(h, h ^ x ^ y ^ z) == x ^ y ^ z;
  }

  function ByteOr0(b: Bytes, i: nat): byte {
    if i < |b| then b[i] else 0
  }

  /** A shorter tail is a three-byte tail whose missing bytes are zero. */
  lemma TailAsThree(h: bv32, b: Bytes)
    requires 0 < |b| < 4
    ensures Tail(h, b) == Mul(Mix3(h, High(ByteOr0(b, 2)), Middle(ByteOr0(b, 1)), Low(b[0])))
  {
    assert High(0) == 0 && Middle(0) == 0;
    assert Xor(h, 0) == h;
  }

  lemma MulInjective(x: bv32, y: bv32)
    requires Mul(x) == Mul(y)
    ensures x == y
  {
    MulUndone(x);
    MulUndone(y);
  }

  lemma BytesInjective(h: bv32, a2: byte, a1: byte, a0: byte, b2: byte, b1: byte, b0: byte)
    requires Mix3(h, High(a2), Middle(a1), Low(a0)) == Mix3(h, High(b2), Middle(b1), Low(b0))
    ensures a2 == b2 && a1 == b1 && a0 == b0
  {
    Mix3Xored(h, High(a2), Middle(a1), Low(a0));
    Mix3Xored(h, High(b2), Middle(b1), Low(b0));
    XorPackInjective(a2, a1, a0, b2, b1, b0);
  }

  lemma TailInjective(h: bv32, a: Bytes, b: Bytes)
    requires |a| == |b| < 4 && Tail(h, a) == Tail(h, b)
    ensures a == b
  {
    if |a| > 0 {
      TailAsThree(h, a);
      TailAsThree(h, b);
      MulInjective(Mix3(h, High(ByteOr0(a, 2)), Middle(ByteOr0(a, 1)), Low(a[0])),
                   Mix3(h, High(ByteOr0(b, 2)), Middle(ByteOr0(b, 1)), Low(b[0])));
      BytesInjective(h, ByteOr0(a, 2), ByteOr0(a, 1), a[0], ByteOr0(b, 2), ByteOr0(b, 1), b[0]);
      assert forall i :: 0 <= i < |a| ==> a[i] == b[i];
    }
  }

  // Injectivity of the whole hash in one block or in the tail.

  lemma MixesUndone(h: bv32, g: bv32, x: bv32, y: bv32, z: bv32)
    requires Mul(Mix3(h, x, y, z)) == Mul(Mix3(g, x, y, z))
    ensures h == g
  {
    hide Mul, Mix3, Xor;
    MulInjective(Mix3(h, x, y, z), Mix3(g, x, y, z));
    Mix3Undone(h, x, y, z);
    Mix3Undone(g, x, y, z);
  }

  lemma EmptyTail(h: bv32)
    ensures Tail(h, []) == h
  {
  }

  lemma TailUndone(h: bv32, g: bv32, b: Bytes)
    requires |b| < 4 && Tail(h, b) == Tail(g, b)
    ensures h == g
  {
    hide Tail, High, Middle, Low, ByteOr0, Mix3, Mul, Xor;
    if b == [] {
      EmptyTail(h);
      EmptyTail(g);
    } else {
      TailAsThree(h, b);
      TailAsThree(g, b);
      MixesUndone(h, g, High(ByteOr0(b, 2)), Middle(ByteOr0(b, 1)), Low(b[0]));
    }
  }

  /** Absorbing the same bytes keeps different states different. */
  lemma {:induction false} AbsorbUndone(h: bv32, g: bv32, b: Bytes)
    requires Absorb(h, b) == Absorb(g, b)
    ensures h == g
    decreases |b|
  {
    if |b| < 4 {
      TailUndone(h, g, b);
    } else {
      AbsorbUndone(Block(h, Word(b)), Block(g, Word(b)), b[4..]);
      BlockIsBijective(h, Word(b));
      BlockIsBijective(g, Word(b));
    }
  }

  /** a and b have the same length and differ, but only within one aligned four-byte block, or only in the tail. */
  ghost predicate DifferInOneBlock(a: Bytes, b: Bytes, i: nat) {
    && |a| == |b| && a != b && i % 4 == 0 && i <= |a|
    && a[..i] == b[..i]
    && (i + 4 <= |a| ==> a[i + 4..] == b[i + 4..])
  }

  lemma BlockInjective(h: bv32, k: bv32, l: bv32)
    requires Block(h, k) == Block(h, l)
    ensures k == l
  {
    BlockIsBijective(h, k);
    BlockIsBijective(h, l);
  }

  /** Different words absorbed from one state stay apart over equal rests. */
  lemma WordsSeparate(h: bv32, k: bv32, l: bv32, rest: Bytes)
    requires Absorb(Block(h, k), rest) == Absorb(Block(h, l), rest)
    ensures k == l
  {
    AbsorbUndone(Block(h, k), Block(h, l), rest);
    BlockInjective(h, k, l);
  }

  lemma WordInjective(a: Bytes, b: Bytes)
    requires |a| == |b| >= 4 && Word(a) == Word(b) && a[4..] == b[4..]
    ensures a == b
  {
    hide Pack;
    PackInjective(a[3], a[2], a[1], a[0], b[3], b[2], b[1], b[0]);
    assert forall i :: 4 <= i < |a| ==> a[i] == a[4..][i - 4] == b[4..][i - 4] == b[i];
  }

  lemma FirstBlockSeparates(h: bv32, a: Bytes, b: Bytes)
    requires |a| == |b| >= 4 && a[4..] == b[4..] && Absorb(h, a) == Absorb(h, b)
    ensures a == b
  {
    WordsSeparate(h, Word(a), Word(b), a[4..]);
    WordInjective(a, b);
  }

  lemma SameFirstBlock(a: Bytes, b: Bytes, i: nat)
    requires DifferInOneBlock(a, b, i) && i >= 4
    ensures Word(a) == Word(b) && DifferInOneBlock(a[4..], b[4..], i - 4)
  {
    assert forall j :: 0 <= j < 4 ==> a[j] == a[..i][j] == b[..i][j] == b[j];
    assert a == a[..4] + a[4..] && b == b[..4] + b[4..];
    assert a[4..][..i - 4] == a[..i][4..] && b[4..][..i - 4] == b[..i][4..];
  }

  lemma {:induction false} AbsorbSeparates(h: bv32, a: Bytes, b: Bytes, i: nat)
    requires DifferInOneBlock(a, b, i)
    ensures Absorb(h, a) != Absorb(h, b)
    decreases i
  {
    if Absorb(h, a) == Absorb(h, b) {
      if i >= 4 {
        SameFirstBlock(a, b, i);
        AbsorbSeparates(Block(h, Word(a)), a[4..], b[4..], i - 4);
      } else if |a| < 4 {
        TailInjective(h, a, b);
      } else {
        FirstBlockSeparates(h, a, b);
      }
    }
  }

  /** Two keys of one length that differ in a single aligned block, or only in the tail, never hash alike. */
  lemma OneBlockNeverCollides(a: Bytes, b: Bytes, i: nat)
    requires DifferInOneBlock(a, b, i)
    ensures Hash(a) != Hash(b)
  {
    AbsorbSeparates(Start(|a|), a, b, i);
    FinishIsBijective(Absorb(Start(|a|), a));
    FinishIsBijective(Absorb(Start(|b|), b));
  }

  /** Clearing the top bit of a hash subtracts it. */
  lemma MaskedHash(h: bv32)
    ensures (h & 0x7fffffff) as int == if h as int < 0x8000_0000 then h as int else h as int - 0x8000_0000
  {
    if h & 0x80000000 == 0 {
      ClearMask(h);
      ClearIsSmall(h);
      SmallAsInt(h);
    } else {
      SetMask(h);
      SetIsLarge(h);
      LargeAsInt(h);
    }
  }

  lemma ClearMask(h: bv32)
    requires h & 0x80000000 == 0
    ensures h & 0x7fffffff == h
  {
  }

  lemma ClearIsSmall(h: bv32)
    requires h & 0x80000000 == 0
    ensures h < 0x80000000
  {
  }

  lemma SmallAsInt(h: bv32)
    requires h < 0x80000000
    ensures (h as int) < 0x8000_0000
  {
    AddTopBit(h);
  }

  lemma AddTopBit(h: bv32)
    requires h < 0x80000000
    ensures (h + 0x80000000) as int == h as int + 0x8000_0000
  {
  }

  lemma SetMask(h: bv32)
    requires h & 0x80000000 != 0
    ensures h & 0x7fffffff == h - 0x80000000
  {
  }

  lemma SetIsLarge(h: bv32)
    requires h & 0x80000000 != 0
    ensures h >= 0x80000000
  {
  }

  lemma LargeAsInt(h: bv32)
    requires h >= 0x80000000
    ensures (h - 0x80000000) as int == h as int - 0x8000_0000 && h as int >= 0x8000_0000
  {
  }

  /** "xugohezk", a key whose hash is 2^31. */
  const TOP_KEY: Bytes := [0x78, 0x75, 0x67, 0x6f, 0x68, 0x65, 0x7a, 0x6b]

  lemma TopKeyWords()
    ensures Start(8) == 0x9747b284 && Word(TOP_KEY) == 0x6f677578 && |TOP_KEY[4..]| == 4 &&
            Word(TOP_KEY[4..]) == 0x6b7a6568
  {
    assert TOP_KEY[4..] == [0x68, 0x65, 0x7a, 0x6b];
  }

  lemma TopKeyBlocks()
    ensures Block(0x9747b284, 0x6f677578) == 0x868af53c && Block(0x868af53c, 0x6b7a6568) == 0x64f014fa
  {
    assert Mul(0x6f677578) == 0x901996d8 && Shift24(0x901996d8) == 0x90199648 && Mul(0x90199648) == 0x7173ffe8;
    assert Mul(0x9747b284) == 0xf7f90ad4 && Xor(0xf7f90ad4, 0x7173ffe8) == 0x868af53c;
    assert Mul(0x6b7a6568) == 0xb670ad88 && Shift24(0xb670ad88) == 0xb670ad3e && Mul(0xb670ad3e) == 0x36e04316;
    assert Mul(0x868af53c) == 0x521057ec && Xor(0x521057ec, 0x36e04316) == 0x64f014fa;
  }

  lemma TopKeyFinish()
    ensures Finish(0x64f014fa) == 0x80000000
  {
    assert Shift13(0x64f014fa) == 0x64f3337a && Mul(0x64f3337a) == 0x80010002 && Shift15(0x80010002) == 0x80000000;
  }

  lemma TopKeyHash()
    ensures Hash(TOP_KEY) == 0x80000000
  {
    hide Start, Word, Block, Finish, Tail;
    TopKeyWords();
    TopKeyBlocks();
    TopKeyFinish();
    TopKeyAbsorbed();
  }

  lemma TopKeyAbsorbed()
    ensures Absorb(0x9747b284, TOP_KEY) == Block(Block(0x9747b284, Word(TOP_KEY)), Word(TOP_KEY[4..]))
  {
    hide Word, Block;
    var h := Block(0x9747b284, Word(TOP_KEY));
    assert TOP_KEY[4..][4..] == [];
    assert Absorb(Block(h, Word(TOP_KEY[4..])), []) == Block(h, Word(TOP_KEY[4..]));
    assert Absorb(h, TOP_KEY[4..]) == Absorb(Block(h, Word(TOP_KEY[4..])), TOP_KEY[4..][4..]);
  }

  /** "abc", which is all tail. Kafka's own partitioner is tested with its hash. */
  const ABC: Bytes := [0x61, 0x62, 0x63]

  lemma AbcTail()
    ensures Tail(0x9747b28f, ABC) == 0xa6e43886
  {
    assert High(0x63) == 0x630000 && Middle(0x62) == 0x6200 && Low(0x61) == 0x61;
    assert Xor(0x9747b28f, 0x630000) == 0x9724b28f && Xor(0x9724b28f, 0x6200) == 0x9724d08f;
    assert Xor(0x9724d08f, 0x61) == 0x9724d0ee && Mul(0x9724d0ee) == 0xa6e43886;
  }

  lemma AbcFinish()
    ensures Finish(0xa6e43886) == 0x1c94221b
  {
    assert Shift13(0xa6e43886) == 0xa6e10fa7 && Mul(0xa6e10fa7) == 0x1c941b33 && Shift15(0x1c941b33) == 0x1c94221b;
  }

  lemma AbcStart()
    ensures Start(3) == 0x9747b28f
  {
    assert 3 % 0x1_0000_0000 == 3 && (3 as bv32) == 3;
  }

  lemma ShortKey(h: bv32, b: Bytes)
    requires |b| < 4
    ensures Absorb(h, b) == Tail(h, b)
  {
  }

  lemma AbcHash()
    ensures Hash(ABC) == 0x1c94221b
  {
    hide Start, Finish, Tail, Absorb;
    AbcStart();
    ShortKey(0x9747b28f, ABC);
    AbcTail();
    AbcFinish();
  }
}

/** Which partition a key belongs to, for the store and for the log. */
module Routing {
  import opened ByteStrings
  import opened Partitioner

  const TWO_31: int := 0x8000_0000
  const TWO_32: int := 0x1_0000_0000

  /** The store's route for a hash: a 32-bit remainder, converted to a signed 32-bit number. A count that is
      0 modulo 2^32 would divide by zero. */
  function StoreRoute(h: bv32, count: nat): int
    requires count % TWO_32 != 0
  {
    var r := (h as int) % (count % TWO_32);
    if r < TWO_31 then r else r - TWO_32
  }

  /** The log client's route for a hash: the top bit cleared, modulo the count. */
  function LogRoute(h: bv32, count: nat): int
    requires count != 0
  {
    ((h & 0x7fffffff) as int) % count
  }

  function GetPartition(pk: Bytes, count: nat): int
    requires count % TWO_32 != 0
  {
    StoreRoute(Hash(pk), count)
  }

  lemma MulMonotone(a: int, n: int)
    requires n > 0
    ensures a > 0 ==> a * n >= n
  {
  }

  lemma RemainderUnique(x: int, d: int, r: int, n: int)
    requires 0 <= r < n && x == d * n + r
    ensures x % n == r
  {
    var d', r' := x / n, x % n;
    assert (d - d') * n == r' - r;
    MulMonotone(d - d', n);
    MulMonotone(d' - d, n);
  }

  lemma AddMultiple(x: int, q: int, n: int)
    requires n > 0
    ensures (x + q * n) % n == x % n
  {
    var d := x / n;
    assert x + q * n == (d + q) * n + x % n;
    RemainderUnique(x + q * n, d + q, x % n, n);
  }

  lemma AddPowerOf31(x: int, n: int)
    requires n > 0 && TWO_31 % n == 0
    ensures (x + TWO_31) % n == x % n
  {
    AddMultiple(x, TWO_31 / n, n);
  }

  lemma StoreRouteIsRemainder(h: bv32, count: nat)
    requires 0 < count <= TWO_31
    ensures count % TWO_32 == count && StoreRoute(h, count) == (h as int) % count
    ensures 0 <= StoreRoute(h, count) < count
  {
  }

  lemma RemaindersAgree(h: int, masked: int, count: nat)
    requires 0 < count && masked == if h < TWO_31 then h else h - TWO_31
    ensures TWO_31 % count == 0 ==> h % count == masked % count
    ensures TWO_31 % count != 0 && h == TWO_31 ==> h % count != masked % count
  {
    if TWO_31 % count == 0 {
      AddPowerOf31(masked, count);
    }
  }

  lemma TopBitAsInt()
    ensures (0x80000000 as bv32) as int == TWO_31
  {
  }

  lemma LogRouteIsRemainder(h: bv32, count: nat) returns (masked: int)
    requires 0 < count
    ensures LogRoute(h, count) == masked % count
    ensures masked == if h as int < TWO_31 then h as int else h as int - TWO_31
  {
    MaskedHash(h);
    masked := (h & 0x7fffffff) as int;
  }

  lemma RoutesOfHash(h: bv32, count: nat)
    requires 0 < count <= TWO_31 && count % TWO_32 != 0
    ensures TWO_31 % count == 0 ==> StoreRoute(h, count) == LogRoute(h, count)
    ensures TWO_31 % count != 0 && h as int == TWO_31 ==> StoreRoute(h, count) != LogRoute(h, count)
  {
    hide StoreRoute, LogRoute;
    StoreRouteIsRemainder(h, count);
    var masked := LogRouteIsRemainder(h, count);
    RemaindersAgree(h as int, masked, count);
  }

  /** For every count of at most 2^31 the store's route is a partition of the log. */
  lemma GetPartitionInRange(pk: Bytes, count: nat)
    requires 0 < count <= TWO_31
    ensures count % TWO_32 != 0 && 0 <= GetPartition(pk, count) < count
  {
    StoreRouteIsRemainder(Hash(pk), count);
  }

  /** When they can disagree at all, they disagree about this key. */
  lemma TopKeyRoutes(count: nat)
    requires 0 < count <= TWO_31 && TWO_31 % count != 0
    ensures count % TWO_32 != 0 && GetPartition(TOP_KEY, count) != LogRoute(Hash(TOP_KEY), count)
  {
    StoreRouteIsRemainder(0, count);
    TopBitAsInt();
    RoutesOfHash(0x80000000, count);
    TopKeyHash();
  }

  /** The store reads every key where the log's client writes it exactly when the count divides 2^31. */
  lemma RoutesAgreeIff(count: nat)
    requires 0 < count <= TWO_31
    ensures count % TWO_32 != 0
    ensures (forall pk :: GetPartition(pk, count) == LogRoute(Hash(pk), count)) <==> TWO_31 % count == 0
  {
    StoreRouteIsRemainder(0, count);
    forall pk | TWO_31 % count == 0
      ensures GetPartition(pk, count) == LogRoute(Hash(pk), count)
    {
      RoutesOfHash(Hash(pk), count);
    }
    if TWO_31 % count != 0 {
      TopKeyRoutes(count);
    }
  }

  function Pow2(e: nat): nat {
    if e == 0 then 1 else 2 * Pow2(e - 1)
  }

  lemma {:induction false} Pow2Adds(a: nat, b: nat)
    ensures Pow2(a + b) == Pow2(a) * Pow2(b) && Pow2(a) > 0
    decreases a
  {
    if a != 0 {
      Pow2Adds(a - 1, b);
    }
  }

  lemma Pow2Of31()
    ensures Pow2(31) == TWO_31
  {
    assert Pow2(8) == 256;
    Pow2Adds(8, 8);
    Pow2Adds(16, 8);
    Pow2Adds(24, 7);
    assert Pow2(7) == 128;
  }

  /** Every power of two up to 2^31 is such a count. */
  lemma PowersOfTwoAgree(e: nat, pk: Bytes)
    requires e <= 31
    ensures 0 < Pow2(e) <= TWO_31 && Pow2(e) % TWO_32 != 0
    ensures GetPartition(pk, Pow2(e)) == LogRoute(Hash(pk), Pow2(e))
  {
    var n := Pow2(e);
    Pow2Of31();
    Pow2Adds(e, 31 - e);
    Pow2Adds(31 - e, e);
    assert TWO_31 == Pow2(31 - e) * n + 0;
    MulMonotone(Pow2(31 - e), n);
    RemainderUnique(TWO_31, Pow2(31 - e), 0, n);
    RoutesAgreeIff(n);
  }
}
