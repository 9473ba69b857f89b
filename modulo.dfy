/**
 * Wrap-around arithmetic (src/modulo.rs). Rust's `%` truncates toward zero, so
 * the source corrects a negative remainder by adding the modulus; Dafny's `%`
 * is Euclidean. Both are written out here and proved equal.
 */
module Modular {

  /** Quotient rounded toward zero, as Rust's integer `/` computes it. */
  function TruncDiv(x: int, n: int): int
    requires n > 0
  {
    if x >= 0 then x / n else -((-x) / n)
  }

  /** Remainder with the sign of the dividend, as Rust's `rem` / `%` computes it. */
  function Rem(x: int, n: int): (r: int)
    requires n > 0
    ensures x >= 0 ==> r == x % n
    ensures x < 0 ==> r == -((-x) % n)
  {
    x - n * TruncDiv(x, n)
  }

  /** Euclidean division is determined by quotient and remainder. */
  lemma DivModUnique(x: int, n: int, q: int, r: int)
    requires n > 0 && 0 <= r < n && x == q * n + r
    ensures x % n == r && x / n == q
  {
    var k := q - x / n;
    assert k * n == x % n - r;
    if k >= 1 {
      assert false;
    } else if k <= -1 {
      assert false;
    }
  }

  /** The Euclidean remainder of `-y` in terms of that of `y`. */
  lemma NegMod(y: int, n: int)
    requires n > 0
    ensures (-y) % n == if y % n == 0 then 0 else n - y % n
  {
    var q, r := y / n, y % n;
    if r == 0 {
      DivModUnique(-y, n, -q, 0);
    } else {
      DivModUnique(-y, n, -q - 1, n - r);
    }
  }

  /**
   * The mathematical modulo: the truncating remainder, shifted up by `n`
   * when negative. It always lies in [0, n), is congruent to `x`, and agrees with
   * Dafny's Euclidean `%`.
   */
  function Modulo(x: int, n: int): (m: int)
    requires n > 0
    ensures 0 <= m < n
    ensures m == x % n
    ensures 0 <= x < n ==> m == x
  {
    var r := Rem(x, n);
    RemShifted(x, n);
    if r < 0 then r + n else r
  }

  /** Adding `n` to a negative truncating remainder gives the Euclidean one. */
  lemma RemShifted(x: int, n: int)
    requires n > 0
    ensures (if Rem(x, n) < 0 then Rem(x, n) + n else Rem(x, n)) == x % n
    ensures 0 <= x < n ==> Rem(x, n) == x
  {
    if x < 0 {
      NegMod(-x, n);
    } else if x < n {
      ModInRange(x, n);
    }
  }

  /** An in-range value is its own remainder. */
  lemma ModInRange(x: int, n: int)
    requires 0 <= x < n
    ensures x % n == x
  {
    DivModUnique(x, n, 0, x);
  }

  /** The doc-comment example: -1 modulo 10 is 9, where Rust's `%` gives -1. */
  lemma ModuloOfMinusOne()
    ensures Rem(-1, 10) == -1
    ensures Modulo(-1, 10) == 9
  {
  }

  /** Next coordinate on a ring of `n` cells. */
  function Next(x: int, n: int): int
    requires 0 <= x < n
  {
    if x == n - 1 then 0 else x + 1
  }

  /** Previous coordinate on a ring of `n` cells. */
  function Prev(x: int, n: int): int
    requires 0 <= x < n
  {
    if x == 0 then n - 1 else x - 1
  }

  /** Next and Prev stay on the ring and undo each other. */
  lemma NextPrevInverse(x: int, n: int)
    requires 0 <= x < n
    ensures 0 <= Next(x, n) < n && 0 <= Prev(x, n) < n
    ensures Prev(Next(x, n), n) == x
    ensures Next(Prev(x, n), n) == x
  {
  }

  /** wrap_inc: the new value of the in-out coordinate, one up with wrap-around. */
  method WrapInc(x: int, n: int) returns (x': int)
    requires n > 0
    ensures x' == (x + 1) % n
    ensures 0 <= x < n ==> x' == Next(x, n)
  {
    x' := Modulo(x + 1, n);
    if 0 <= x < n && x == n - 1 {
      DivModUnique(x + 1, n, 1, 0);
    }
  }

  /** wrap_dec: the new value of the in-out coordinate, one down with wrap-around. */
  method WrapDec(x: int, n: int) returns (x': int)
    requires n > 0
    ensures x' == (x - 1) % n
    ensures 0 <= x < n ==> x' == Prev(x, n)
  {
    x' := Modulo(x - 1, n);
    if x == 0 {
      DivModUnique(x - 1, n, -1, n - 1);
    }
  }
}
