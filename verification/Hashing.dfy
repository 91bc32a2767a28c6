/** Hash values and table sizes (dict.c). */
module Hashing {
  import opened Bytes

  const WORD: nat := 0x1_0000_0000
  const INITIAL_SIZE: nat := 4

  /** Bernstein's hash of a byte string, on 32-bit words. */
  function Hash(buf: Bytes): (h: nat)
    ensures h < WORD
  {
    if buf == [] then 5381 else (Hash(buf[..|buf| - 1]) * 33 + buf[|buf| - 1]) % WORD
  }

  /** It starts at 5381; each byte is added to 33 times the value so far. */
  lemma HashOf(buf: Bytes, b: Byte)
    ensures Hash([]) == 5381 && Hash(buf + [b]) == (Hash(buf) * 33 + b) % 0x1_0000_0000
  {
    assert (buf + [b])[..|buf|] == buf;
  }

  lemma WrapsOnce(h: nat, c: Byte)
    requires h < WORD
    ensures ((h * 32 % WORD + h) % WORD + c) % WORD == (h * 33 + c) % WORD
  {}

  /** dictGenHashFunction: the shift and the sums wrap around. */
  method GenHashFunction(buf: Bytes) returns (hash: nat)
    ensures hash == Hash(buf)
  {
    hash := 5381;
    for i := 0 to |buf|
      invariant hash == Hash(buf[..i])
    {
      assert buf[..i + 1][..i] == buf[..i];
      var shifted := hash * 32 % WORD;
      WrapsOnce(hash, buf[i]);
      hash := ((shifted + hash) % WORD + buf[i]) % WORD;
    }
    assert buf[..|buf|] == buf;
  }

  /** The bitwise and of two words. */
  function And(a: nat, b: nat): nat {
    if a == 0 || b == 0 then 0
    else 2 * And(a / 2, b / 2) + (if a % 2 == 1 && b % 2 == 1 then 1 else 0)
  }

  predicate PowerOfTwo(n: nat) {
    n == 1 || (n > 1 && n % 2 == 0 && PowerOfTwo(n / 2))
  }

  /** Masking with a power of two less one is taking the remainder, so every hash value
      falls into the table. */
  lemma {:induction false} AndIsRemainder(h: nat, n: nat)
    requires PowerOfTwo(n)
    ensures And(h, n - 1) == h % n
  {
    if n > 1 {
      var m := n / 2;
      AndIsRemainder(h / 2, m);
      assert n == 2 * m && (n - 1) / 2 == m - 1 && (n - 1) % 2 == 1;
      HalvesRemainder(h, m);
    }
  }

  lemma HalvesRemainder(h: nat, m: nat)
    requires m > 0
    ensures h % (2 * m) == 2 * (h / 2 % m) + h % 2
  {
    var q, r := h / 2 / m, h / 2 % m;
    assert h == 2 * m * q + (2 * r + h % 2) by {
      assert h / 2 == m * q + r;
      assert 2 * (m * q) == 2 * m * q;
    }
    Remainder(h, 2 * m, q, 2 * r + h % 2);
  }

  lemma Grows(n: nat, d: int)
    ensures d > 0 ==> n * d >= n
    ensures d < 0 ==> n * d <= 0 - n
  {}

  lemma Remainder(h: nat, n: nat, q: nat, r: nat)
    requires h == n * q + r && r < n
    ensures h % n == r
  {
    var d := h / n - q;
    assert h == n * (h / n) + h % n;
    assert n * d == r - h % n by { assert n * (h / n) == n * q + n * d; }
    Grows(n, d);
  }

  /** _dictNextPower, below LONG_MAX: the least power of two that is no less than both the
      initial and the given size. */
  method NextPower(size: nat) returns (i: nat)
    ensures PowerOfTwo(i) && i >= size && i >= 4 && (i == 4 || i / 2 < size)
  {
    i := INITIAL_SIZE;
    assert PowerOfTwo(2);
    while i < size
      invariant PowerOfTwo(i) && i >= INITIAL_SIZE && (i == INITIAL_SIZE || i / 2 < size)
      decreases size - i
    {
      i := i * 2;
    }
  }
}
