/**
 * The store's data types: the record identifier `Id`, the deterministic
 * identifier generator `NewUuid`, and the insertion-ordered map `OrderedMap`
 * that pairs a key/value table with a list recording insertion order.
 */
module Datatypes {
  import opened Wrappers

  /** An opaque record identifier: a wrapper around a string, compared structurally. */
  datatype Id = Id(value: string)

  /** An unsigned 64-bit integer, the type of the clock reading that seeds the generator. */
  newtype u64 = x: int | 0 <= x < 0x1_0000_0000_0000_0000

  /**
   * The alphabet identifiers are drawn from, written as its three runs; its
   * length is also the identifier length.
   */
  const Charset: string := "ABCDEFGHIJKLMNOPQRSTUVWXYZ" + "abcdefghijklmnopqrstuvwxyz" + "0123456789"

  const Length: nat := 62

  /** The powers of two. */
  function Pow2(n: nat): (r: nat)
    ensures r >= 1
  {
    if n == 0 then 1 else 2 * Pow2(n - 1)
  }

  /** Euclidean division is determined by quotient and remainder: `x == b*q + r` with `0 <= r < b` gives `x / b == q`. */
  lemma DivUnique(x: int, b: int, q: int, r: int)
    requires b >= 1 && 0 <= r < b && x == b * q + r
    ensures x / b == q
  {
    var q', r' := x / b, x % b;
    assert x == b * q' + r';
    assert b * (q - q') == r' - r;
    MulSmall(b, q - q');
  }

  /** The only multiple of `b` strictly between `-b` and `b` is zero. */
  lemma MulSmall(b: int, d: int)
    requires b >= 1 && -b < b * d < b
    ensures d == 0
  {
    if d > 0 {
      MulAtLeast(b, d);
      assert false;
    } else if d < 0 {
      MulAtLeast(b, -d);
      assert false;
    }
  }

  /** A positive multiple of `b` is at least `b`. */
  lemma MulAtLeast(b: int, d: int)
    requires b >= 1 && d >= 1
    ensures b * d >= b
  {
    assert b * d == b + b * (d - 1);
  }

  /** Halving after dividing by `a` is dividing by `2a`. */
  lemma DivDiv(x: int, a: int)
    requires x >= 0 && a >= 1
    ensures x / a / 2 == x / (a * 2)
  {
    var q, r := x / a, x % a;
    var h, t := q / 2, q % 2;
    assert x == a * q + r;
    assert q == 2 * h + t;
    assert a * q == (a * 2) * h + a * t;
    assert 0 <= a * t <= a by { assert t == 0 || t == 1; }
    DivUnique(x, a * 2, h, a * t + r);
  }

  /** `x >> n` on an unsigned 64-bit value: `n` halvings, each dropping the low bit. */
  function ShiftRight(x: u64, n: nat): (r: u64)
    ensures r <= x
  {
    if n == 0 then x else ShiftRight(x, n - 1) / 2
  }

  /** The `n` halvings compute `>>`: the result is `x / 2^n` rounded down. */
  lemma {:induction false} ShiftRightIsDiv(x: u64, n: nat)
    ensures ShiftRight(x, n) as int == x as int / Pow2(n)
  {
    if n > 0 {
      ShiftRightIsDiv(x, n - 1);
      DivDiv(x as int, Pow2(n - 1));
    }
  }

  /** The shift applied to the seed for output position `i`, kept below 64. */
  function ShiftAmount(i: nat): (r: nat)
    ensures r < 64 && r % 2 == 0
    ensures r == 2 * (i % 32)
  {
    (i * 2) % 64
  }

  /**
   * The seed shifted right by `shift` and truncated to its low 8 bits
   * (`as u8`); the shift stays below the 64-bit width, so it never overflows.
   */
  function SeedByte(seed: u64, shift: nat): (b: nat)
    requires shift < 64
    ensures b < 256
  {
    ShiftRight(seed, shift) as int % 256
  }

  /**
   * The alphabet index for output position `i`: the seed byte at that
   * position's shift, reduced modulo 62.
   */
  function CharIndex(seed: u64, i: nat): (idx: nat)
    ensures idx < Length
  {
    SeedByte(seed, ShiftAmount(i)) % 62
  }

  /** The character at output position `i` of the identifier generated from `seed`. */
  function CharAt(seed: u64, i: nat): (c: char)
    ensures c in Charset
  {
    assert |Charset| == Length;
    Charset[CharIndex(seed, i)]
  }

  /**
   * The identifier text generated from a 64-bit seed. The seed, read from the
   * host clock in the running system, is a parameter here, so equal seeds
   * give equal identifiers.
   */
  function NewUuid(seed: u64): (s: string)
    ensures |s| == Length == |Charset|
    ensures forall i :: 0 <= i < |s| ==> s[i] in Charset
    ensures forall i :: 0 <= i < |s| ==> s[i] == Charset[CharIndex(seed, i)]
  {
    seq(Length, i requires 0 <= i < Length => CharAt(seed, i))
  }

  /** `Id::new` with the clock reading passed in as the seed. */
  function NewId(seed: u64): (id: Id)
    ensures |id.value| == Length
    ensures forall i :: 0 <= i < |id.value| ==> id.value[i] in Charset
  {
    Id(NewUuid(seed))
  }

  /**
   * Because the shift wraps at 64, positions 32 apart read the same byte of
   * the seed: the identifier's last 30 characters repeat its characters 0..29.
   */
  lemma {:induction false} NewUuidPeriodic(seed: u64, i: nat)
    requires i + 32 < Length
    ensures NewUuid(seed)[i] == NewUuid(seed)[i + 32]
  {
    assert ShiftAmount(i) == ShiftAmount(i + 32);
  }

  /** Any two positions with the same remainder modulo 32 hold the same character. */
  lemma {:induction false} NewUuidSameShift(seed: u64, i: nat, j: nat)
    requires i < Length && j < Length && i % 32 == j % 32
    ensures NewUuid(seed)[i] == NewUuid(seed)[j]
  {
    if i < j {
      assert j == i + 32;
      NewUuidPeriodic(seed, i);
    } else if j < i {
      assert i == j + 32;
      NewUuidPeriodic(seed, j);
    }
  }

  /** The characters `first`, `first + 1`, ... in code-point order, `n` of them. */
  function CharRange(first: char, n: nat): seq<char>
    requires first as int + n <= 128
  {
    seq(n, i requires 0 <= i < n => (first as int + i) as char)
  }

  /** The alphabet is the upper-case letters, then the lower-case letters, then the digits. */
  lemma CharsetRanges()
    ensures Charset == CharRange('A', 26) + CharRange('a', 26) + CharRange('0', 10)
  {
    assert CharRange('A', 26) == "ABCDEFGHIJKLMNOPQRSTUVWXYZ";
    assert CharRange('a', 26) == "abcdefghijklmnopqrstuvwxyz";
    assert CharRange('0', 10) == "0123456789";
  }

  /** No character occurs twice in the alphabet, so a character names its index. */
  lemma CharsetIndexUnique(a: nat, b: nat)
    requires a < Length && b < Length && Charset[a] == Charset[b]
    ensures a == b
  {
    CharsetRanges();
  }

  /** `2^(a + b) == 2^a * 2^b`. */
  lemma {:induction false} Pow2Add(a: nat, b: nat)
    ensures Pow2(a + b) == Pow2(a) * Pow2(b)
  {
    if a > 0 {
      Pow2Add(a - 1, b);
    }
  }

  /** `2^16`, built up by doubling exponents. */
  lemma Pow2Sixteen()
    ensures Pow2(16) == 0x1_0000
  {
    assert Pow2(1) == 2;
    Pow2Add(1, 1);
    Pow2Add(2, 2);
    Pow2Add(4, 4);
    Pow2Add(8, 8);
  }

  /** `2^64`, the first value beyond the range of `u64`. */
  lemma Pow2Width()
    ensures Pow2(64) == 0x1_0000_0000_0000_0000
  {
    Pow2Sixteen();
    Pow2Add(16, 16);
    assert Pow2(32) == 0x1_0000_0000;
    Pow2Add(32, 32);
  }

  /** A 64-bit value shifted right by `n` bits fits in `64 - n` bits. */
  lemma {:induction false} ShiftRightBelow(x: u64, n: nat)
    requires n <= 64
    ensures ShiftRight(x, n) as int < Pow2(64 - n)
  {
    if n == 0 {
      Pow2Width();
    } else {
      ShiftRightBelow(x, n - 1);
      assert Pow2(64 - (n - 1)) == 2 * Pow2(64 - n);
    }
  }

  /** Shifting right by two more bits divides by four. */
  lemma ShiftRightTwo(x: u64, k: nat)
    ensures ShiftRight(x, k + 2) as int == ShiftRight(x, k) as int / 4
  {
    assert ShiftRight(x, k + 1) as int == ShiftRight(x, k) as int / 2;
  }

  /** The low byte of `x` is its two low bits under bits 2..7, which are those of `x / 4`. */
  lemma LowByte(x: int, a: int)
    requires 0 <= x && x / 4 == a
    ensures x % 256 == 4 * (a % 64) + x % 4
  {
    var q, m, r := a / 64, a % 64, x % 4;
    assert x == 4 * a + r;
    assert a == 64 * q + m;
    assert x == 256 * q + (4 * m + r);
  }

  /** Two bytes that differ only in their two low bits differ modulo 62 as well. */
  lemma LowBitsResidue(m: int, r1: int, r2: int)
    requires 0 <= m < 64 && 0 <= r1 < 4 && 0 <= r2 < 4
    requires (4 * m + r1) % 62 == (4 * m + r2) % 62
    ensures r1 == r2
  {
  }

  /**
   * One step of decoding an identifier: the seed shifted by `k` is fixed by
   * the seed shifted by `k + 2` together with the shifted byte modulo 62,
   * because the four candidates differ only in their two low bits.
   */
  lemma {:induction false} WindowStep(s1: u64, s2: u64, k: nat)
    requires k + 2 < 64
    requires ShiftRight(s1, k + 2) == ShiftRight(s2, k + 2)
    requires SeedByte(s1, k) % 62 == SeedByte(s2, k) % 62
    ensures ShiftRight(s1, k) == ShiftRight(s2, k)
  {
    var x1, x2 := ShiftRight(s1, k) as int, ShiftRight(s2, k) as int;
    var a := ShiftRight(s1, k + 2) as int;
    ShiftRightTwo(s1, k);
    ShiftRightTwo(s2, k);
    LowByte(x1, a);
    LowByte(x2, a);
    LowBitsResidue(a % 64, x1 % 4, x2 % 4);
  }

  /**
   * Decoding from the top: if the seed bytes modulo 62 agree at every even
   * shift from `k` up to 62, the seeds agree once shifted by `k`. At shift 62
   * only two bits are left, so the byte modulo 62 is the shifted seed itself.
   */
  lemma {:induction false} WindowsAgree(s1: u64, s2: u64, k: nat)
    requires k <= 62 && k % 2 == 0
    requires forall j :: k <= j < 64 && j % 2 == 0 ==> SeedByte(s1, j) % 62 == SeedByte(s2, j) % 62
    ensures ShiftRight(s1, k) == ShiftRight(s2, k)
    decreases 62 - k
  {
    if k == 62 {
      ShiftRightBelow(s1, 62);
      ShiftRightBelow(s2, 62);
      assert Pow2(2) == 4;
      assert SeedByte(s1, 62) % 62 == SeedByte(s2, 62) % 62;
    } else {
      WindowsAgree(s1, s2, k + 2);
      WindowStep(s1, s2, k);
    }
  }

  /** Equal identifiers have equal alphabet indices at every position. */
  lemma SameCharIndex(s1: u64, s2: u64, i: nat)
    requires NewUuid(s1) == NewUuid(s2) && i < Length
    ensures CharIndex(s1, i) == CharIndex(s2, i)
  {
    assert NewUuid(s1)[i] == NewUuid(s2)[i];
    CharsetIndexUnique(CharIndex(s1, i), CharIndex(s2, i));
  }

  /**
   * The generator is injective: the first 32 characters read the seed at
   * every even shift, and decoding them from the top (where only two bits
   * are left) downwards recovers the whole seed. Two identifiers therefore
   * coincide only when they come from the same clock reading.
   */
  lemma NewUuidInjective(s1: u64, s2: u64)
    requires NewUuid(s1) == NewUuid(s2)
    ensures s1 == s2
  {
    forall j | 0 <= j < 64 && j % 2 == 0
      ensures SeedByte(s1, j) % 62 == SeedByte(s2, j) % 62
    {
      assert ShiftAmount(j / 2) == j;
      SameCharIndex(s1, s2, j / 2);
    }
    WindowsAgree(s1, s2, 0);
  }

  /** Distinct seeds give distinct identifiers. */
  lemma NewIdInjective(s1: u64, s2: u64)
    requires s1 != s2
    ensures NewId(s1) != NewId(s2)
  {
    if NewId(s1) == NewId(s2) {
      NewUuidInjective(s1, s2);
    }
  }

  /**
   * `ks` with every occurrence of `k` removed and the other elements kept in
   * their order: what `Vec::retain(|x| x != k)` leaves behind.
   */
  function Without(ks: seq<Id>, k: Id): (r: seq<Id>)
    ensures forall x :: x in r <==> x in ks && x != k
    ensures |r| <= |ks|
  {
    if ks == [] then []
    else if ks[0] == k then
      assert ks == [ks[0]] + ks[1..];
      Without(ks[1..], k)
    else
      assert ks == [ks[0]] + ks[1..];
      [ks[0]] + Without(ks[1..], k)
  }

  /** Filtering keeps every other element with its multiplicity and drops all copies of `k`. */
  lemma {:induction false} WithoutMultiset(ks: seq<Id>, k: Id)
    ensures multiset(Without(ks, k)) == multiset(ks)[k := 0]
  {
    if ks != [] {
      assert ks == [ks[0]] + ks[1..];
      WithoutMultiset(ks[1..], k);
    }
  }

  /** Filtering distributes over concatenation, so the kept elements stay in order. */
  lemma {:induction false} WithoutAppend(a: seq<Id>, b: seq<Id>, k: Id)
    ensures Without(a + b, k) == Without(a, k) + Without(b, k)
  {
    if a != [] {
      assert (a + b)[1..] == a[1..] + b;
      WithoutAppend(a[1..], b, k);
    } else {
      assert a + b == b;
    }
  }

  /** Filtering out an element that does not occur changes nothing. */
  lemma {:induction false} WithoutAbsent(ks: seq<Id>, k: Id)
    requires k !in ks
    ensures Without(ks, k) == ks
  {
    if ks != [] {
      assert ks[0] != k;
      WithoutAbsent(ks[1..], k);
    }
  }

  /**
   * The pairs produced by walking `ks` and looking each key up in `m`, in
   * list order; the lookup must succeed for every listed key.
   */
  function Pairs(ks: seq<Id>, m: map<Id, string>): (r: seq<(Id, string)>)
    requires forall k :: k in ks ==> k in m
    ensures |r| == |ks|
    ensures forall i :: 0 <= i < |r| ==> r[i] == (ks[i], m[ks[i]])
  {
    if ks == [] then [] else [(ks[0], m[ks[0]])] + Pairs(ks[1..], m)
  }

  /**
   * Inserting a key that is already listed lists it a second time: the
   * iteration afterwards yields the key at its old position and again at the
   * end, both times with the new value.
   */
  lemma ReinsertListedTwice(ks: seq<Id>, m: map<Id, string>, k: Id, v: string, i: nat)
    requires forall x :: x in ks ==> x in m
    requires i < |ks| && ks[i] == k
    ensures var r := Pairs(ks + [k], m[k := v]);
      |r| == |ks| + 1 && r[i] == (k, v) && r[|ks|] == (k, v)
  {
  }

  /** A hash table of records plus the list of keys in insertion order. */
  class OrderedMap {
    var entries: map<Id, string>
    var keys: seq<Id>

    /** Every key in the order list has an entry: what the lookup in `Iter` relies on. */
    ghost predicate KeysPresent()
      reads this
    {
      forall k :: k in keys ==> k in entries
    }

    /** The keys listed in the order list are exactly the table's domain. */
    ghost predicate Valid()
      reads this
    {
      && KeysPresent()
      && forall k :: k in entries ==> k in keys
    }

    /** `OrderedMap::new`: an empty table and an empty order list. */
    constructor ()
      ensures entries == map[] && keys == []
      ensures Valid()
    {
      entries := map[];
      keys := [];
    }

    /** The current value stored for `key`, if any. */
    function Get(key: Id): (r: Option<string>)
      reads this
      ensures r.Some? <==> key in entries
      ensures r.Some? ==> r.value == entries[key]
    {
      if key in entries then Some(entries[key]) else None
    }

    /**
     * Stores `value` under `key` and appends `key` to the order list, even
     * when `key` is already listed.
     */
    method Insert(key: Id, value: string)
      modifies this
      ensures entries == old(entries)[key := value]
      ensures keys == old(keys) + [key]
      ensures Get(key) == Some(value)
      ensures forall k :: k != key ==> Get(k) == old(Get(k))
      ensures old(Valid()) ==> Valid()
    {
      entries := entries[key := value];
      keys := keys + [key];
    }

    /** The (key, value) pairs in the order the keys were inserted. */
    function Iter(): (r: seq<(Id, string)>)
      reads this
      requires KeysPresent()
      ensures |r| == |keys|
      ensures forall i :: 0 <= i < |r| ==> r[i].0 == keys[i] && Get(keys[i]) == Some(r[i].1)
    {
      Pairs(keys, entries)
    }

    /**
     * Deletes the entry for `key` and every occurrence of `key` in the order
     * list; the other keys keep their relative order.
     */
    method Remove(key: Id)
      modifies this
      ensures entries == old(entries) - {key}
      ensures keys == Without(old(keys), key)
      ensures key !in keys && Get(key) == None
      ensures forall k :: k != key ==> Get(k) == old(Get(k))
      ensures key !in old(keys) ==> keys == old(keys)
      ensures old(Valid()) ==> Valid()
    {
      var listed := keys;
      var kept: seq<Id> := [];
      var i := 0;
      while i < |listed|
        invariant 0 <= i <= |listed|
        invariant kept == Without(listed[..i], key)
        invariant unchanged(this)
      {
        assert listed[..i + 1] == listed[..i] + [listed[i]];
        WithoutAppend(listed[..i], [listed[i]], key);
        assert Without([listed[i]], key) == if listed[i] == key then [] else [listed[i]] by {
          assert [listed[i]][1..] == [];
        }
        if listed[i] != key {
          kept := kept + [listed[i]];
        }
        i := i + 1;
      }
      assert listed[..i] == listed;
      if key !in listed {
        WithoutAbsent(listed, key);
      }
      entries := entries - {key};
      keys := kept;
      if old(Valid()) {
        forall k | k in keys ensures k in entries {
          assert k in listed && k != key;
        }
        forall k | k in entries ensures k in keys {
          assert k in listed;
        }
      }
    }
  }
}
