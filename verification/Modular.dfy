// Remainder arithmetic for counters that wrap at 2^64 and index a buffer
// whose size is a power of two.
module Modular {
  import opened Common

  function Pow2(k: nat): nat
    ensures Pow2(k) > 0
  {
    if k == 0 then 1 else 2 * Pow2(k - 1)
  }

  predicate IsRingSize(size: nat) {
    0 < size < WORD && WORD % size == 0
  }

  lemma MulBounds(m: int, d: int)
    requires m > 0
    ensures d >= 1 ==> m * d >= m
    ensures d <= -1 ==> m * d <= -m
  {
  }

  lemma ModUnique(x: int, m: int, q: int, r: int)
    requires m > 0 && x == m * q + r && 0 <= r < m
    ensures x % m == r && x / m == q
  {
    var d := x / m - q;
    assert x == m * (x / m) + x % m;
    assert m * d == r - x % m by { assert m * (x / m) - m * q == m * d; }
    MulBounds(m, d);
  }

  lemma ModShift(x: int, m: int, q: int)
    requires m > 0
    ensures (x + m * q) % m == x % m
  {
    assert x == m * (x / m) + x % m;
    assert x + m * q == m * (x / m + q) + x % m;
    ModUnique(x + m * q, m, x / m + q, x % m);
  }

  // Wrapping at 2^64 does not change a ring index.
  lemma WrapKeepsIndex(x: nat, i: nat, size: nat)
    requires IsRingSize(size)
    ensures (x % WORD + i) % size == (x + i) % size
  {
    var q := WORD / size;
    assert WORD == size * q;
    var k := x / WORD;
    assert x == WORD * k + x % WORD;
    assert x + i == (x % WORD + i) + size * (q * k) by { assert WORD * k == size * (q * k); }
    ModShift(x % WORD + i, size, q * k);
  }

  // Distinct positions less than one size apart have distinct indices.
  lemma IndexDistinct(a: nat, b: nat, size: nat)
    requires size > 0 && a < b < a + size
    ensures a % size != b % size
  {
    var q := b / size - a / size;
    assert a == size * (a / size) + a % size;
    assert b == size * (b / size) + b % size;
    assert b - a == size * q + (b % size - a % size) by {
      assert size * (b / size) - size * (a / size) == size * q;
    }
    MulBounds(size, q);
  }

  // The difference of two wrapped counters is the true difference.
  lemma WrappedDifference(a: nat, b: nat)
    requires b <= a < b + WORD
    ensures Sub64(a % WORD, b % WORD) == a - b
  {
    var d := a - b;
    assert b == WORD * (b / WORD) + b % WORD;
    if b % WORD + d < WORD {
      ModUnique(a, WORD, b / WORD, b % WORD + d);
    } else {
      assert a == WORD * (b / WORD + 1) + (b % WORD + d - WORD);
      ModUnique(a, WORD, b / WORD + 1, b % WORD + d - WORD);
    }
  }

  lemma WrappedAdvance(a: nat, n: nat)
    ensures (a % WORD + n) % WORD == (a + n) % WORD
  {
    assert a + n == (a % WORD + n) + WORD * (a / WORD);
    ModShift(a % WORD + n, WORD, a / WORD);
  }

  // `x & mask` for mask == 2^k - 1, bit by bit, is the remainder by 2^k.
  function BitAnd(x: nat, y: nat): nat {
    if x == 0 || y == 0 then 0
    else 2 * BitAnd(x / 2, y / 2) + (if x % 2 == 1 && y % 2 == 1 then 1 else 0)
  }

  lemma {:induction false} MaskIsRemainder(x: nat, k: nat)
    ensures BitAnd(x, Pow2(k) - 1) == x % Pow2(k)
  {
    if k == 0 {
      ModUnique(x, 1, x, 0);
    } else {
      var m := Pow2(k - 1);
      hide BitAnd;
      MaskIsRemainder(x / 2, k - 1);
      MaskStep(x, m);
      DoubleRemainder(x, m);
    }
  }

  lemma MaskStep(x: nat, m: nat)
    requires m > 0
    ensures BitAnd(x, 2 * m - 1) == 2 * BitAnd(x / 2, m - 1) + x % 2
  {
    var y := 2 * m - 1;
    assert y / 2 == m - 1 && y % 2 == 1;
  }

  lemma DoubleRemainder(x: nat, m: nat)
    requires m > 0
    ensures x % (2 * m) == 2 * (x / 2 % m) + x % 2
  {
    var h := x / 2;
    var q, r := h / m, h % m;
    assert h == m * q + r;
    assert x == 2 * h + x % 2;
    assert 2 * (m * q) == (2 * m) * q;
    ModUnique(x, 2 * m, q, 2 * r + x % 2);
  }

  // Every power of two below 2^64 is a ring size.
  lemma {:induction false} Pow2Divides(k: nat, n: nat)
    requires k <= n
    ensures Pow2(n) % Pow2(k) == 0
    decreases n - k
  {
    if k == n {
      ModUnique(Pow2(n), Pow2(k), 1, 0);
    } else {
      Pow2Divides(k + 1, n);
      var q := Pow2(n) / Pow2(k + 1);
      assert Pow2(n) == Pow2(k + 1) * q;
      assert Pow2(n) == Pow2(k) * (2 * q) + 0;
      ModUnique(Pow2(n), Pow2(k), 2 * q, 0);
    }
  }

  lemma Pow2Small()
    ensures Pow2(0) == 1 && Pow2(4) == 16
  {
    assert Pow2(2) == 4;
  }

  lemma WordIsPow2()
    ensures Pow2(64) == WORD
  {
    hide Pow2;
    Pow2Small();
    assert Pow2(8) == 0x100 by { Pow2Add(4, 4); }
    assert Pow2(16) == 0x1_0000 by { Pow2Add(8, 8); }
    assert Pow2(32) == 0x1_0000_0000 by { Pow2Add(16, 16); }
    Pow2Add(32, 32);
  }

  lemma {:induction false} Pow2Add(a: nat, b: nat)
    ensures Pow2(a + b) == Pow2(a) * Pow2(b)
  {
    if a > 0 {
      Pow2Add(a - 1, b);
      assert Pow2(a + b) == 2 * (Pow2(a - 1) * Pow2(b));
    }
  }

  lemma {:induction false} Pow2Grows(k: nat, n: nat)
    requires k < n
    ensures Pow2(k) < Pow2(n)
    decreases n
  {
    if k < n - 1 { Pow2Grows(k, n - 1); }
  }

  lemma RingSizes(k: nat)
    requires k < 64
    ensures IsRingSize(Pow2(k))
  {
    WordIsPow2();
    Pow2Divides(k, 64);
    Pow2Grows(k, 64);
  }
}
