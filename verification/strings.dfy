/** Byte strings: their order and their hash. */
module Strings {
  import opened Words

  type Key = seq<byte>

  /** memcmp of the bytes from i up to n */
  function MemCmp(a: Key, b: Key, i: nat, n: nat): int
    requires i <= n <= |a| && n <= |b|
    decreases n - i
  {
    if i == n then 0 else if a[i] != b[i] then a[i] as int - b[i] as int else MemCmp(a, b, i + 1, n)
  }

  function Min(x: nat, y: nat): (m: nat)
    ensures m <= x && m <= y && (m == x || m == y)
  {
    if x < y then x else y
  }

  /** string_cmp: the bytes decide, and the length when one string begins the other */
  function Compare(a: Key, b: Key): int
  {
    var bytes := MemCmp(a, b, 0, Min(|a|, |b|));
    if bytes != 0 then bytes else if |a| > |b| then 1 else if |a| < |b| then -1 else 0
  }

  ghost predicate Less(a: Key, b: Key)
  {
    Compare(a, b) < 0
  }

  /** The first place before n where two strings differ, or n */
  function Fork(a: Key, b: Key, i: nat, n: nat): (k: nat)
    requires i <= n <= |a| && n <= |b|
    ensures i <= k <= n && (k < n ==> a[k] != b[k])
    ensures forall j :: i <= j < k ==> a[j] == b[j]
    decreases n - i
  {
    if i == n || a[i] != b[i] then i else Fork(a, b, i + 1, n)
  }

  lemma {:induction false} MemCmpAtFork(a: Key, b: Key, i: nat, n: nat)
    requires i <= n <= |a| && n <= |b|
    ensures var k := Fork(a, b, i, n); MemCmp(a, b, i, n) == if k == n then 0 else a[k] as int - b[k] as int
    decreases n - i
  {
    if i < n && a[i] == b[i] {
      MemCmpAtFork(a, b, i + 1, n);
    }
  }

  /** Two strings compare as the first bytes that differ, or as their lengths. */
  lemma CompareAtFork(a: Key, b: Key)
    ensures var n := Min(|a|, |b|); var k := Fork(a, b, 0, n);
      Compare(a, b) == if k < n then a[k] as int - b[k] as int else if |a| > |b| then 1 else if |a| < |b| then -1 else 0
  {
    MemCmpAtFork(a, b, 0, Min(|a|, |b|));
  }

  /** string_cmp is 0 on equal strings only. */
  lemma CompareZero(a: Key, b: Key)
    ensures Compare(a, b) == 0 <==> a == b
  {
    CompareAtFork(a, b);
  }

  /** Swapping the strings flips the sign. */
  lemma CompareFlips(a: Key, b: Key)
    ensures Compare(a, b) < 0 <==> Compare(b, a) > 0
  {
    CompareAtFork(a, b);
    CompareAtFork(b, a);
    var n := Min(|a|, |b|);
    SameFork(a, b, 0, n, Fork(a, b, 0, n));
    SameFork(b, a, 0, n, Fork(a, b, 0, n));
  }

  /** A place where strings that agree up to it differ is their fork. */
  lemma SameFork(a: Key, b: Key, i: nat, n: nat, k: nat)
    requires i <= k <= n <= |a| && n <= |b|
    requires forall j :: i <= j < k ==> a[j] == b[j]
    requires k < n ==> a[k] != b[k]
    ensures Fork(a, b, i, n) == k
  {
  }

  lemma LessTransitive(a: Key, b: Key, c: Key)
    requires Less(a, b) && Less(b, c)
    ensures Less(a, c)
  {
    CompareAtFork(a, b);
    CompareAtFork(b, c);
    CompareAtFork(a, c);
    var j, k := Fork(a, b, 0, Min(|a|, |b|)), Fork(b, c, 0, Min(|b|, |c|));
    SameFork(a, c, 0, Min(|a|, |c|), Min(j, k));
  }

  // ---------- the hash ----------

  /** One byte mixed into a 32-bit hash */
  function Mix(hash: bv32, b: bv32): bv32
  {
    var sum := hash + b;
    var spread := sum + (sum << 10);
    spread ^ (spread >> 6)
  }

  /** The hash after the first n bytes */
  function Mixed(key: Key, n: nat): bv32
    requires n <= |key|
  {
    if n == 0 then 0 else Mix(Mixed(key, n - 1), key[n - 1] as bv32)
  }

  /** The last three lines of the hash */
  function Finished(mixed: bv32): bv32
  {
    var a := mixed + (mixed << 3);
    var b := a ^ (a >> 11);
    b + (b << 15)
  }

  /** _hash_key: the one-at-a-time hash */
  function HashKey(key: Key): bv32
  {
    Finished(Mixed(key, |key|))
  }

  /** Two values that are known of this hash: of no bytes, and of the letter a */
  lemma HashValues()
    ensures HashKey([]) == 0 && HashKey(['a' as int]) == 0xCA2E_9442
  {
    var key: Key := [97];
    assert Mixed(key, 0) == 0 && Mixed(key, 1) == Mix(0, 97);
    assert Mix(0, 97) == 98928;
  }
}
