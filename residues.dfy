/**
 * Python's `divmod` and `%` on natural numbers, and the facts about
 * residues that the checksum proofs need.
 *
 * `DivMod` is defined by repeated subtraction, so that unfolding it never
 * asks the solver for non-linear arithmetic; `DivModIsDivision` shows that
 * it agrees with integer division and remainder.
 */
module Residues {

  /** `divmod(x, n)` for a natural `x` and a positive `n`: the quotient and the remainder. */
  function DivMod(x: nat, n: nat): (qr: (nat, nat))
    requires n >= 1
    ensures qr.1 < n
    ensures qr.0 == 0 <==> x < n
    decreases x
  {
    if x < n then (0, x) else (DivMod(x - n, n).0 + 1, DivMod(x - n, n).1)
  }

  /** `x % n` for a natural `x` and a positive `n`. */
  function Mod(x: nat, n: nat): nat
    requires n >= 1
  {
    DivMod(x, n).1
  }

  lemma MultipleAtLeast(n: nat, d: int)
    requires n >= 1 && d >= 1
    ensures n * d >= n
  {}

  /** Quotient and remainder are the only pair that rebuilds `x` with the remainder below `n`. */
  lemma DivisionUnique(x: int, n: nat, q: int, r: int)
    requires n >= 1 && 0 <= r < n && x == n * q + r
    ensures x / n == q && x % n == r
  {
    var q', r' := x / n, x % n;
    assert n * q' + r' == n * q + r;
    if q < q' {
      assert n * (q' - q) == r - r';
      MultipleAtLeast(n, q' - q);
    } else if q' < q {
      assert n * (q - q') == r' - r;
      MultipleAtLeast(n, q - q');
    }
  }

  lemma {:induction false} DivModRebuilds(x: nat, n: nat)
    requires n >= 1
    ensures n * DivMod(x, n).0 + DivMod(x, n).1 == x
    decreases x
  {
    if x >= n {
      DivModRebuilds(x - n, n);
      var q := DivMod(x - n, n).0;
      assert n * (q + 1) == n * q + n;
    }
  }

  /** `DivMod` agrees with Dafny's (Euclidean) division and remainder, which coincide with Python's on naturals. */
  lemma DivModIsDivision(x: nat, n: nat)
    requires n >= 1
    ensures DivMod(x, n) == (x / n, x % n)
  {
    DivModRebuilds(x, n);
    DivisionUnique(x, n, DivMod(x, n).0, DivMod(x, n).1);
  }

  /** Taking `n` off a total of at least `n` leaves its residue unchanged. */
  lemma ModStep(x: nat, n: nat)
    requires n >= 1 && x >= n
    ensures Mod(x, n) == Mod(x - n, n)
  {
  }

  /**
   * Two amounts below `n` that complete the same `t` to multiples of `n`
   * (the totals `x` and `y`) are equal.
   */
  lemma {:induction false} CompletionUnique(a: nat, b: nat, x: nat, y: nat, t: nat, n: nat)
    requires n >= 1 && a < n && b < n
    requires x == a + t && y == b + t
    requires Mod(x, n) == 0 && Mod(y, n) == 0
    ensures a == b
    decreases t
  {
    if t >= n {
      ModStep(x, n);
      ModStep(y, n);
      CompletionUnique(a, b, x - n, y - n, t - n, n);
    } else {
      if x >= n { ModStep(x, n); }
      if y >= n { ModStep(y, n); }
    }
  }

  /**
   * Two totals that differ by exchanging one amount below `n` for another
   * leave different residues.
   */
  lemma {:induction false} ExchangeChangesResidue(x: nat, y: nat, a: nat, b: nat, n: nat)
    requires n >= 1 && a < n && b < n && a != b
    requires x + b == y + a
    ensures Mod(x, n) != Mod(y, n)
    decreases x + y
  {
    if x >= n && y >= n {
      ModStep(x, n);
      ModStep(y, n);
      ExchangeChangesResidue(x - n, y - n, a, b, n);
    } else {
      if x >= n { ModStep(x, n); }
      if y >= n { ModStep(y, n); }
    }
  }

  /**
   * Python's `s[-ck]` on a sequence of length `n`, for the residue `ck` of a
   * total `x0`, reads position `j`; adding `j` to `x0` gives a multiple of `n`.
   */
  lemma {:induction false} ComplementCompletes(x0: nat, j: nat, x: nat, n: nat)
    requires n >= 1
    requires j == if Mod(x0, n) == 0 then 0 else n - Mod(x0, n)
    requires x == j + x0
    ensures Mod(x, n) == 0
    decreases x0
  {
    if x0 >= n {
      ModStep(x0, n);
      ModStep(x, n);
      ComplementCompletes(x0 - n, j, x - n, n);
    } else if x0 > 0 {
      ModStep(x, n);
    }
  }
}
