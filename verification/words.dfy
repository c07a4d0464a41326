/** Bytes and the little-endian words that the assembler stores into the bytecode and the
    virtual machine loads back out of it. */
module Words {
  type byte = b: int | 0 <= b < 256

  const INT32_SPAN: nat := 0x1_0000_0000
  const INT64_SPAN: nat := 0x1_0000_0000_0000_0000

  /** intptr_t on a 64-bit machine */
  type int64 = i: int | -0x8000_0000_0000_0000 <= i < 0x8000_0000_0000_0000

  /** uintptr_t on a 64-bit machine */
  type word64 = u: int | 0 <= u < 0x1_0000_0000_0000_0000

  /** The number of values an n-byte word can hold */
  function Span(n: nat): (s: nat)
    ensures s > 0
  {
    if n == 0 then 1 else 256 * Span(n - 1)
  }

  /** The bytes from `at` on are what a store of the n-byte word v leaves in memory, least
      significant first: a negative v in two's complement, a v too wide without its high bits. */
  predicate WordAt(bytes: seq<byte>, at: nat, n: nat, v: int)
    decreases n
  {
    n == 0 || (at < |bytes| && bytes[at] == v % 256 && WordAt(bytes, at + 1, n - 1, v / 256))
  }

  /** The unsigned word that a load of n bytes yields */
  function Load(bytes: seq<byte>, at: nat, n: nat): (u: nat)
    requires at + n <= |bytes|
    decreases n
  {
    if n == 0 then 0 else bytes[at] + 256 * Load(bytes, at + 1, n - 1)
  }

  lemma {:induction false} LoadStored(bytes: seq<byte>, at: nat, n: nat, v: int)
    requires WordAt(bytes, at, n, v)
    ensures n == 0 || at + n <= |bytes|
    ensures at + n <= |bytes| ==> Load(bytes, at, n) == v % Span(n)
    decreases n
  {
    if n != 0 {
      LoadStored(bytes, at + 1, n - 1, v / 256);
      ModByProduct(v, Span(n - 1));
    }
  }

  /** The i-th byte from `at` is the i-th digit of v to the base 256, from the least significant on. */
  predicate DigitAt(bytes: seq<byte>, at: nat, v: int, i: nat)
  {
    at + i < |bytes| && bytes[at + i] == (v / Span(i)) % 256
  }

  lemma {:induction false} LittleEndian(bytes: seq<byte>, at: nat, n: nat, v: int)
    ensures WordAt(bytes, at, n, v) <==> forall i: nat :: i < n ==> DigitAt(bytes, at, v, i)
    decreases n
  {
    if n > 0 {
      var next, rest := at + 1, v / 256;
      LittleEndian(bytes, next, n - 1, rest);
      assert DigitAt(bytes, at, v, 0) <==> at < |bytes| && bytes[at] == v % 256;
      forall i: nat {:trigger DigitAt(bytes, next, rest, i)} | i < n - 1
        ensures DigitAt(bytes, next, rest, i) <==> DigitAt(bytes, at, v, i + 1)
      {
        DividedTwice(v, Span(i));
      }
      forall i: nat | 0 < i < n
        ensures DigitAt(bytes, at, v, i) <==> DigitAt(bytes, next, rest, i - 1)
      {
        DividedTwice(v, Span(i - 1));
      }
    }
  }

  lemma DividedTwice(v: int, s: nat)
    requires s > 0
    ensures (v / 256) / s == v / (256 * s)
  {
    var q, r := (v / 256) / s, (v / 256) % s;
    assert v == 256 * (s * q + r) + v % 256;
    assert 256 * (s * q) == (256 * s) * q;
    RemainderUnique(v, 256 * s, q, 256 * r + v % 256);
  }

  /** A stored word depends on its own bytes only. */
  lemma {:induction false} WordAtFrame(bytes: seq<byte>, bytes': seq<byte>, at: nat, n: nat, v: int)
    requires WordAt(bytes, at, n, v)
    requires at + n <= |bytes'|
    requires forall p :: at <= p < at + n && p < |bytes| ==> bytes'[p] == bytes[p]
    ensures WordAt(bytes', at, n, v)
    decreases n
  {
    if n != 0 {
      WordAtFrame(bytes, bytes', at + 1, n - 1, v / 256);
    }
  }

  lemma ModByProduct(v: int, s: nat)
    requires s > 0
    ensures v % (256 * s) == v % 256 + 256 * ((v / 256) % s)
  {
    var q, r := (v / 256) / s, (v / 256) % s;
    var m := v % 256 + 256 * r;
    assert v == 256 * (s * q + r) + v % 256;
    assert v == (256 * s) * q + m by {
      assert 256 * (s * q) == (256 * s) * q;
    }
    assert 0 <= m < 256 * s;
    RemainderUnique(v, 256 * s, q, m);
  }

  lemma RemainderUnique(v: int, d: nat, q: int, r: int)
    requires d > 0 && 0 <= r < d
    requires v == d * q + r
    ensures v % d == r && v / d == q
  {
    var q', r' := v / d, v % d;
    QuotientUnique(d, q, r, q', r');
  }

  lemma QuotientUnique(d: nat, q: int, r: int, q': int, r': int)
    requires 0 <= r < d && 0 <= r' < d
    requires d * q + r == d * q' + r'
    ensures q == q' && r == r'
  {
    assert d * (q - q') == r' - r;
    MultipleAtLeastFactor(d, q - q');
  }

  lemma MultipleAtLeastFactor(d: int, k: int)
    requires d >= 0
    ensures k >= 1 ==> d * k >= d
    ensures k <= -1 ==> d * k <= -d
  {
    if k >= 1 {
      assert d * k == d + d * (k - 1);
    } else if k <= -1 {
      assert d * k == -d + d * (k + 1);
    }
  }

  /** An unsigned word of n bytes read as two's complement */
  function Signed(n: nat, u: nat): int
  {
    if 2 * u < Span(n) then u else u - Span(n)
  }

  /** Storing an intptr_t and loading it back as an intptr_t is the identity. */
  lemma SignedRoundTrip(bytes: seq<byte>, at: nat, v: int64)
    requires WordAt(bytes, at, 8, v) && at + 8 <= |bytes|
    ensures Signed(8, Load(bytes, at, 8)) == v
  {
    SpanValues();
    LoadStored(bytes, at, 8, v);
    if v < 0 {
      RemainderUnique(v, INT64_SPAN, -1, v + INT64_SPAN);
    } else {
      RemainderUnique(v, INT64_SPAN, 0, v);
    }
  }

  lemma SpanValues()
    ensures Span(1) == 256
    ensures Span(4) == INT32_SPAN
    ensures Span(8) == INT64_SPAN
  {
    assert Span(2) == 256 * Span(1);
    assert Span(3) == 256 * Span(2);
    assert Span(4) == 256 * Span(3);
    assert Span(5) == 256 * Span(4);
    assert Span(6) == 256 * Span(5);
    assert Span(7) == 256 * Span(6);
  }

  /** The conversion to C's 32-bit int that every instruction function applies to the increment
      it returns */
  function ToInt32(v: int): int
  {
    var u := v % INT32_SPAN;
    if u < INT32_SPAN / 2 then u else u - INT32_SPAN
  }

  /** The conversion to int keeps the value modulo 2^32. */
  lemma ToInt32Wraps(v: int)
    ensures -0x8000_0000 <= ToInt32(v) < 0x8000_0000
    ensures exists k :: ToInt32(v) == v + k * INT32_SPAN
  {
    var q, u := v / INT32_SPAN, v % INT32_SPAN;
    assert v == INT32_SPAN * q + u;
    assert u == v + -q * INT32_SPAN;
    assert u - INT32_SPAN == v + (-q - 1) * INT32_SPAN;
  }

  lemma ToInt32Exact(v: int)
    requires -0x8000_0000 <= v < 0x8000_0000
    ensures ToInt32(v) == v
  {
    if v < 0 {
      RemainderUnique(v, INT32_SPAN, -1, v + INT32_SPAN);
    } else {
      RemainderUnique(v, INT32_SPAN, 0, v);
    }
  }
}
