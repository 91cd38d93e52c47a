/**
 * The Luhn and Luhn mod N checksum over an alphabet of N symbols.
 *
 * For the decimal alphabet this is the Luhn formula of ISO/IEC 7812-1,
 * Annex B; for any other alphabet it is the Luhn mod N generalisation.
 * A number is a sequence of symbols and every symbol stands for its index in
 * the alphabet.  Counting from the rightmost symbol, the symbols at even
 * offsets add their index, those at odd offsets add the base-N digit sum of
 * twice their index, and the checksum is the total modulo N.  A number is
 * valid when its checksum is 0; the check digit is the symbol that, appended,
 * makes a number valid.
 */
module Luhn {

  import opened Residues

  datatype Option<T> = None | Some(value: T)

  /** The one failure of the library: a symbol of the number that the alphabet lacks. */
  datatype Error = SymbolNotInAlphabet(symbol: char)

  datatype Result<T> = Ok(value: T) | Err(error: Error)

  /** The default alphabet, the ten decimal digits. */
  const Decimal: seq<char> := "0123456789"

  /** Every symbol of `number` occurs in `alphabet`. */
  predicate AllIn(number: seq<char>, alphabet: seq<char>) {
    forall c :: c in number ==> c in alphabet
  }

  predicate Distinct(alphabet: seq<char>) {
    forall i, j :: 0 <= i < j < |alphabet| ==> alphabet[i] != alphabet[j]
  }

  /** `c` is the rightmost symbol of `number` that is not in `alphabet`. */
  predicate RightmostMissing(number: seq<char>, alphabet: seq<char>, c: char) {
    exists k :: 0 <= k < |number| && number[k] == c && c !in alphabet && AllIn(number[k + 1..], alphabet)
  }

  // ---------------------------------------------------------------------------
  // Sequence operations the source takes from Python
  // ---------------------------------------------------------------------------

  /** `alphabet.index(c)`: the position of the first occurrence of `c`, or None where Python raises. */
  function IndexOf(alphabet: seq<char>, c: char): (r: Option<nat>)
    ensures r.None? <==> c !in alphabet
    ensures r.Some? ==> r.value < |alphabet| && alphabet[r.value] == c
    ensures r.Some? ==> forall m :: 0 <= m < r.value ==> alphabet[m] != c
  {
    if |alphabet| == 0 then None
    else if alphabet[0] == c then Some(0)
    else
      match IndexOf(alphabet[1..], c)
      case None => None
      case Some(i) => Some(i + 1)
  }

  /** `s[i]` under Python's reading of a negative index as counting from the end. */
  function PyIndex<T>(s: seq<T>, i: int): (r: T)
    requires -|s| <= i < |s|
    ensures r in s
  {
    if i >= 0 then s[i] else s[|s| + i]
  }

  /** `s[::2]`: the entries at even offsets. */
  function EvenOffsets(s: seq<nat>): (r: seq<nat>)
    ensures |r| == (|s| + 1) / 2
    ensures forall i :: 0 <= i < |r| ==> r[i] == s[2 * i]
  {
    if |s| <= 1 then s else [s[0]] + EvenOffsets(s[2..])
  }

  /** `s[1::2]`: the entries at odd offsets. */
  function OddOffsets(s: seq<nat>): (r: seq<nat>)
    ensures |r| == |s| / 2
    ensures forall i :: 0 <= i < |r| ==> r[i] == s[2 * i + 1]
  {
    if |s| <= 1 then [] else EvenOffsets(s[1..])
  }

  function Sum(s: seq<nat>): nat {
    if |s| == 0 then 0 else s[0] + Sum(s[1..])
  }

  // ---------------------------------------------------------------------------
  // The checksum, as the source computes it
  // ---------------------------------------------------------------------------

  /** `sum(divmod(v * 2, n))`: the base-n digit sum of twice the index `v`. */
  function DoubledValue(v: nat, n: nat): nat
    requires n >= 1
  {
    DivMod(2 * v, n).0 + DivMod(2 * v, n).1
  }

  /** `sum(DoubledValue(v, n) for v in s)`. */
  function SumDoubled(s: seq<nat>, n: nat): nat
    requires n >= 1
  {
    if |s| == 0 then 0 else DoubledValue(s[0], n) + SumDoubled(s[1..], n)
  }

  /** The total before reduction: `sum(vs[::2])` plus the doubled digit sums of `vs[1::2]`. */
  function SlicedTotal(vs: seq<nat>, n: nat): nat
    requires n >= 1
  {
    Sum(EvenOffsets(vs)) + SumDoubled(OddOffsets(vs), n)
  }

  /**
   * `tuple(alphabet.index(c) for c in reversed(number))`: the alphabet index
   * of every symbol, rightmost symbol first.  The lookups run from the right,
   * so a failure names the rightmost symbol that the alphabet lacks.
   */
  function ReversedIndices(number: seq<char>, alphabet: seq<char>): (r: Result<seq<nat>>)
    ensures r.Ok? <==> AllIn(number, alphabet)
    ensures r.Ok? ==> |r.value| == |number|
    ensures r.Err? ==> RightmostMissing(number, alphabet, r.error.symbol)
    decreases |number|
  {
    if |number| == 0 then Ok([])
    else
      var last := number[|number| - 1];
      var front := number[..|number| - 1];
      assert number == front + [last];
      match IndexOf(alphabet, last)
      case None =>
        assert number[|number|..] == [];
        Err(SymbolNotInAlphabet(last))
      case Some(v) =>
        match ReversedIndices(front, alphabet)
        case Err(e) =>
          ghost var k :| 0 <= k < |front| && front[k] == e.symbol && e.symbol !in alphabet && AllIn(front[k + 1..], alphabet);
          assert number[k + 1..] == front[k + 1..] + [last];
          Err(e)
        case Ok(rest) => Ok([v] + rest)
  }

  /**
   * Entry `k` of the reversed indices is the alphabet index of the symbol
   * `k` places from the right end of the number.
   */
  lemma {:induction false} ReversedIndicesEntry(number: seq<char>, alphabet: seq<char>, k: nat)
    requires AllIn(number, alphabet) && k < |number|
    ensures ReversedIndices(number, alphabet).Ok?
    ensures ReversedIndices(number, alphabet).value[k] < |alphabet|
    ensures IndexOf(alphabet, number[|number| - 1 - k]) == Some(ReversedIndices(number, alphabet).value[k])
    decreases |number|
  {
    var front := number[..|number| - 1];
    assert number == front + [number[|number| - 1]];
    assert AllIn(front, alphabet);
    if k > 0 {
      ReversedIndicesEntry(front, alphabet, k - 1);
    }
  }

  /** `checksum(number, alphabet)`. */
  function Checksum(number: seq<char>, alphabet: seq<char>): (r: Result<nat>)
    requires |alphabet| >= 1
    ensures r.Ok? <==> AllIn(number, alphabet)
    ensures r.Ok? ==> r.value < |alphabet|
    ensures r.Err? ==> RightmostMissing(number, alphabet, r.error.symbol)
  {
    match ReversedIndices(number, alphabet)
    case Err(e) => Err(e)
    case Ok(vs) => Ok(Mod(SlicedTotal(vs, |alphabet|), |alphabet|))
  }

  /** `is_valid(number, alphabet)`. */
  function IsValid(number: seq<char>, alphabet: seq<char>): (r: Result<bool>)
    requires |alphabet| >= 1
    ensures r.Ok? <==> AllIn(number, alphabet)
    ensures r.Ok? ==> (r.value <==> Checksum(number, alphabet) == Ok(0))
    ensures r.Err? ==> RightmostMissing(number, alphabet, r.error.symbol)
  {
    match Checksum(number, alphabet)
    case Err(e) => Err(e)
    case Ok(ck) => Ok(ck == 0)
  }

  /** `calc_check_digit(number, alphabet)`: `alphabet[-ck]` for the checksum `ck` of the number with `alphabet[0]` appended. */
  function CalcCheckDigit(number: seq<char>, alphabet: seq<char>): (r: Result<char>)
    requires |alphabet| >= 1
    ensures r.Ok? <==> AllIn(number, alphabet)
    ensures r.Ok? ==> r.value in alphabet
    ensures r.Err? ==> RightmostMissing(number, alphabet, r.error.symbol)
  {
    var padded := number + [alphabet[0]];
    assert AllIn(padded, alphabet) <==> AllIn(number, alphabet);
    match Checksum(padded, alphabet)
    case Err(e) =>
      ghost var k :| 0 <= k < |padded| && padded[k] == e.symbol && e.symbol !in alphabet && AllIn(padded[k + 1..], alphabet);
      assert k < |number| && number[k + 1..] + [alphabet[0]] == padded[k + 1..];
      Err(e)
    case Ok(ck) => Ok(PyIndex(alphabet, -(ck as int)))
  }

  /**
   * At most one symbol is the rightmost one missing from the alphabet, so the
   * error contracts above name the failing symbol exactly.
   */
  lemma RightmostMissingUnique(number: seq<char>, alphabet: seq<char>, c: char, c': char)
    requires RightmostMissing(number, alphabet, c) && RightmostMissing(number, alphabet, c')
    ensures c == c'
  {
  }

  // ---------------------------------------------------------------------------
  // Reference definition: a weight per offset from the right
  // ---------------------------------------------------------------------------

  /** What the index `v` adds to the total at a plain (even) or doubled (odd) offset. */
  function Weight(v: nat, n: nat, doubled: bool): nat
    requires n >= 1
  {
    if doubled then DoubledValue(v, n) else v
  }

  /** The total over `vs`, whose first entry sits at a doubled offset exactly when `doubled` holds. */
  function PositionalTotal(vs: seq<nat>, n: nat, doubled: bool): nat
    requires n >= 1
  {
    if |vs| == 0 then 0 else Weight(vs[0], n, doubled) + PositionalTotal(vs[1..], n, !doubled)
  }

  // ---------------------------------------------------------------------------
  // Properties of the arithmetic
  // ---------------------------------------------------------------------------

  /**
   * A doubled index adds `2v` while that is below `n` and its base-n digit
   * sum `1 + (2v - n)` otherwise; either way less than `n`.
   */
  lemma DoubledValueBounds(v: nat, n: nat)
    requires n >= 1 && v < n
    ensures DoubledValue(v, n) == if 2 * v < n then 2 * v else 2 * v - n + 1
    ensures DoubledValue(v, n) < n
  {
    if 2 * v >= n {
      assert DivMod(2 * v - n, n) == (0, 2 * v - n);
    }
  }

  lemma {:induction false} SumCons(x: nat, s: seq<nat>)
    ensures Sum([x] + s) == x + Sum(s)
  {
    assert ([x] + s)[1..] == s;
  }

  lemma {:induction false} SumDoubledCons(x: nat, s: seq<nat>, n: nat)
    requires n >= 1
    ensures SumDoubled([x] + s, n) == DoubledValue(x, n) + SumDoubled(s, n)
  {
    assert ([x] + s)[1..] == s;
  }

  lemma {:induction false} PositionalTotalCons(v: nat, rest: seq<nat>, n: nat, doubled: bool)
    requires n >= 1
    ensures PositionalTotal([v] + rest, n, doubled) == Weight(v, n, doubled) + PositionalTotal(rest, n, !doubled)
  {
    assert ([v] + rest)[1..] == rest;
  }

  /** An index put in front is the one at offset 0; all others move to the opposite parity. */
  lemma SlicedTotalCons(v: nat, rest: seq<nat>, n: nat)
    requires n >= 1
    ensures SlicedTotal([v] + rest, n) == v + PositionalTotal(rest, n, true)
  {
    PositionalTotalCons(v, rest, n, false);
    SlicedTotalIsPositional([v] + rest, n);
  }

  /** The source's sliced sums equal the alternating weight per offset. */
  lemma {:induction false} SlicedTotalIsPositional(vs: seq<nat>, n: nat)
    requires n >= 1
    ensures SlicedTotal(vs, n) == PositionalTotal(vs, n, false)
    decreases |vs|
  {
    if |vs| == 0 {
    } else if |vs| == 1 {
      assert EvenOffsets(vs) == vs && OddOffsets(vs) == [];
      assert vs[1..] == [];
      assert Sum(vs) == vs[0] + Sum([]);
      assert PositionalTotal(vs, n, false) == vs[0] + PositionalTotal([], n, true);
    } else {
      var tail := vs[2..];
      SlicedTotalIsPositional(tail, n);
      assert EvenOffsets(vs) == [vs[0]] + EvenOffsets(tail);
      assert OddOffsets(vs) == [vs[1]] + OddOffsets(tail);
      SumCons(vs[0], EvenOffsets(tail));
      SumDoubledCons(vs[1], OddOffsets(tail), n);
      assert vs[1..][1..] == tail;
    }
  }

  // ---------------------------------------------------------------------------
  // Properties of the checksum
  // ---------------------------------------------------------------------------

  /** On a number over the alphabet the checksum is the positional total modulo N. */
  lemma ChecksumIsPositional(number: seq<char>, alphabet: seq<char>)
    requires |alphabet| >= 1 && AllIn(number, alphabet)
    ensures ReversedIndices(number, alphabet).Ok?
    ensures Checksum(number, alphabet)
      == Ok(Mod(PositionalTotal(ReversedIndices(number, alphabet).value, |alphabet|, false), |alphabet|))
  {
    SlicedTotalIsPositional(ReversedIndices(number, alphabet).value, |alphabet|);
  }

  /** Appending a symbol puts its index in front of the reversed indices. */
  lemma ReversedIndicesAppend(number: seq<char>, alphabet: seq<char>, d: char)
    requires AllIn(number, alphabet) && d in alphabet
    ensures ReversedIndices(number + [d], alphabet)
      == Ok([IndexOf(alphabet, d).value] + ReversedIndices(number, alphabet).value)
  {
    var extended := number + [d];
    assert extended[..|extended| - 1] == number;
  }

  /**
   * Appending a symbol `d` of the alphabet: `d` sits at offset 0 and adds its
   * index, and every other symbol moves one offset further from the right.
   */
  lemma ChecksumAppend(number: seq<char>, alphabet: seq<char>, d: char)
    requires |alphabet| >= 1 && AllIn(number, alphabet) && d in alphabet
    ensures ReversedIndices(number, alphabet).Ok? && IndexOf(alphabet, d).Some?
    ensures Checksum(number + [d], alphabet)
      == Ok(Mod(PositionalTotal([IndexOf(alphabet, d).value] + ReversedIndices(number, alphabet).value, |alphabet|, false), |alphabet|))
    ensures PositionalTotal([IndexOf(alphabet, d).value] + ReversedIndices(number, alphabet).value, |alphabet|, false)
      == IndexOf(alphabet, d).value + PositionalTotal(ReversedIndices(number, alphabet).value, |alphabet|, true)
  {
    assert AllIn(number + [d], alphabet);
    ReversedIndicesAppend(number, alphabet, d);
    ChecksumIsPositional(number + [d], alphabet);
    PositionalTotalCons(IndexOf(alphabet, d).value, ReversedIndices(number, alphabet).value, |alphabet|, false);
  }

  /** In a distinct-symbol alphabet the symbol at position `j` is found at `j`. */
  lemma IndexOfDistinct(alphabet: seq<char>, j: nat)
    requires Distinct(alphabet) && j < |alphabet|
    ensures IndexOf(alphabet, alphabet[j]) == Some(j)
  {
  }

  // ---------------------------------------------------------------------------
  // Properties of the check digit
  // ---------------------------------------------------------------------------

  /**
   * The check digit is `alphabet[0]` when the number with `alphabet[0]`
   * appended has checksum 0 (Python's `alphabet[-0]`), and `alphabet[n - ck]`
   * for any other checksum `ck`.
   */
  lemma CheckDigitPosition(number: seq<char>, alphabet: seq<char>)
    requires |alphabet| >= 1 && AllIn(number, alphabet)
    ensures Checksum(number + [alphabet[0]], alphabet).Ok?
    ensures var ck := Checksum(number + [alphabet[0]], alphabet).value;
      CalcCheckDigit(number, alphabet) == Ok(alphabet[if ck == 0 then 0 else |alphabet| - ck])
  {
    assert AllIn(number + [alphabet[0]], alphabet);
  }

  /**
   * Check-digit closure: in a distinct-symbol alphabet, appending the
   * computed check digit to a number over the alphabet yields a valid number.
   */
  lemma CheckDigitClosure(number: seq<char>, alphabet: seq<char>)
    requires |alphabet| >= 1 && Distinct(alphabet) && AllIn(number, alphabet)
    ensures CalcCheckDigit(number, alphabet).Ok?
    ensures IsValid(number + [CalcCheckDigit(number, alphabet).value], alphabet) == Ok(true)
  {
    IndexOfDistinct(alphabet, 0);
    ChecksumAppend(number, alphabet, alphabet[0]);
    CheckDigitPosition(number, alphabet);
    var ck := Checksum(number + [alphabet[0]], alphabet).value;
    var j := if ck == 0 then 0 else |alphabet| - ck;
    IndexOfDistinct(alphabet, j);
    ChecksumAppend(number, alphabet, alphabet[j]);
    ComplementCompletes(
      PositionalTotal([IndexOf(alphabet, alphabet[0]).value] + ReversedIndices(number, alphabet).value, |alphabet|, false),
      j,
      PositionalTotal([IndexOf(alphabet, alphabet[j]).value] + ReversedIndices(number, alphabet).value, |alphabet|, false),
      |alphabet|);
    assert IsValid(number + [alphabet[j]], alphabet) == Ok(true);
  }

  /**
   * The check digit is the only completion: in a distinct-symbol alphabet a
   * symbol `d` makes `number + [d]` valid exactly when it is the check digit.
   */
  lemma CheckDigitIsUnique(number: seq<char>, alphabet: seq<char>, d: char)
    requires |alphabet| >= 1 && Distinct(alphabet) && AllIn(number, alphabet) && d in alphabet
    ensures IsValid(number + [d], alphabet) == Ok(true) <==> CalcCheckDigit(number, alphabet) == Ok(d)
  {
    CheckDigitClosure(number, alphabet);
    var c := CalcCheckDigit(number, alphabet).value;
    if IsValid(number + [d], alphabet) == Ok(true) {
      ChecksumAppend(number, alphabet, c);
      ChecksumAppend(number, alphabet, d);
      CompletionUnique(IndexOf(alphabet, d).value, IndexOf(alphabet, c).value,
        PositionalTotal([IndexOf(alphabet, d).value] + ReversedIndices(number, alphabet).value, |alphabet|, false),
        PositionalTotal([IndexOf(alphabet, c).value] + ReversedIndices(number, alphabet).value, |alphabet|, false),
        PositionalTotal(ReversedIndices(number, alphabet).value, |alphabet|, true), |alphabet|);
    }
  }

  /**
   * In a distinct-symbol alphabet the check digit is `alphabet[0]` exactly
   * when the number with `alphabet[0]` appended is already valid.
   */
  lemma CheckDigitZeroCase(number: seq<char>, alphabet: seq<char>)
    requires |alphabet| >= 1 && Distinct(alphabet) && AllIn(number, alphabet)
    ensures CalcCheckDigit(number, alphabet) == Ok(alphabet[0])
      <==> IsValid(number + [alphabet[0]], alphabet) == Ok(true)
  {
    CheckDigitPosition(number, alphabet);
    assert AllIn(number + [alphabet[0]], alphabet);
  }

  // ---------------------------------------------------------------------------
  // Error detection
  // ---------------------------------------------------------------------------

  /** Where a sequence of indices changes in one entry, the total changes by that entry's weight. */
  lemma {:induction false} PositionalTotalUpdate(vs: seq<nat>, k: nat, x: nat, n: nat, doubled: bool)
    requires n >= 1 && k < |vs|
    ensures PositionalTotal(vs[k := x], n, doubled) + Weight(vs[k], n, doubled != (k % 2 == 1))
      == PositionalTotal(vs, n, doubled) + Weight(x, n, doubled != (k % 2 == 1))
    decreases k
  {
    assert vs[k := x][1..] == if k == 0 then vs[1..] else vs[1..][k - 1 := x];
    if k > 0 {
      PositionalTotalUpdate(vs[1..], k - 1, x, n, !doubled);
    }
  }

  /** For an even alphabet size the weight at a fixed offset is one-to-one on indices. */
  lemma WeightInjective(x: nat, y: nat, n: nat, doubled: bool)
    requires n >= 2 && n % 2 == 0 && x < n && y < n && x != y
    ensures Weight(x, n, doubled) != Weight(y, n, doubled)
    ensures Weight(x, n, doubled) < n && Weight(y, n, doubled) < n
  {
    DoubledValueBounds(x, n);
    DoubledValueBounds(y, n);
  }

  /**
   * Single-symbol error detection: for an even alphabet size, replacing one
   * symbol of a number over the alphabet by another symbol of the alphabet
   * changes the checksum.
   */
  lemma SingleSubstitutionDetected(u: seq<char>, v: seq<char>, alphabet: seq<char>, i: nat)
    requires |alphabet| >= 2 && |alphabet| % 2 == 0
    requires AllIn(u, alphabet) && AllIn(v, alphabet)
    requires |u| == |v| && i < |u| && u[i] != v[i]
    requires forall j :: 0 <= j < |u| && j != i ==> u[j] == v[j]
    ensures Checksum(u, alphabet) != Checksum(v, alphabet)
  {
    var n := |alphabet|;
    var ru := ReversedIndices(u, alphabet).value;
    var rv := ReversedIndices(v, alphabet).value;
    var k := |u| - 1 - i;
    ReversedIndicesEntry(u, alphabet, k);
    ReversedIndicesEntry(v, alphabet, k);
    assert alphabet[ru[k]] == u[i] && alphabet[rv[k]] == v[i];
    assert rv == ru[k := rv[k]] by {
      forall m | 0 <= m < |ru| && m != k
        ensures rv[m] == ru[m]
      {
        ReversedIndicesEntry(u, alphabet, m);
        ReversedIndicesEntry(v, alphabet, m);
        assert u[|u| - 1 - m] == v[|v| - 1 - m];
      }
    }
    PositionalTotalUpdate(ru, k, rv[k], n, false);
    WeightInjective(ru[k], rv[k], n, k % 2 == 1);
    ChecksumIsPositional(u, alphabet);
    ChecksumIsPositional(v, alphabet);
    ExchangeChangesResidue(PositionalTotal(ru, n, false), PositionalTotal(rv, n, false),
      Weight(ru[k], n, k % 2 == 1), Weight(rv[k], n, k % 2 == 1), n);
  }
}
