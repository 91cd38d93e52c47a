# Luhn and Luhn mod N checksums

A model of the checksum module of the inventory tools
(`sr/tools/inventory/luhn.py`). The module offers three operations on a
*number*, a string of symbols, over an *alphabet* of N symbols. The default
alphabet is the ten decimal digits.

- `checksum(number, alphabet)`: every symbol stands for its index in the
  alphabet. Counting from the rightmost symbol, the indices at even offsets
  are added as they are. Each index at an odd offset contributes the base-N
  digit sum of twice itself, `sum(divmod(2v, N))`. The result is the total
  modulo N.
- `is_valid(number, alphabet)`: the checksum is 0.
- `calc_check_digit(number, alphabet)`: the checksum `ck` of the number with
  `alphabet[0]` appended, read back as Python's `alphabet[-ck]`.

The model is pure: datatypes, functions and lemmas in three modules.

- `Residues` (`residues.dfy`) holds Python's `divmod` and `%` on naturals.
  They are defined by repeated subtraction, and a lemma ties them to integer
  division. It also holds the residue facts the checksum proofs need.
- `Luhn` (`luhn.dfy`) holds the three operations. They follow the
  source's steps, with Python's building blocks written out:
  `str.index` (first occurrence), `reversed`, the slices `[::2]` and
  `[1::2]`, `divmod`, and negative indexing. Next to them sits an independent
  reference definition, `PositionalTotal`, which gives one alternating weight
  per offset from the right.
- `LuhnExamples` (`luhn_examples.dfy`) holds the library's documented
  examples and a few further concrete cases.

When a symbol is not in the alphabet, Python's `alphabet.index` raises.
The model returns `Err(SymbolNotInAlphabet(c))` instead. The generator
consumes the reversed number, so `c` is the rightmost such symbol.

## Model

| member | source | states |
|---|---|---|
| Luhn.IndexOf | sr/tools/inventory/luhn.py:58 | `alphabet.index(c)`: None exactly when `c` is not in the alphabet; otherwise a position holding `c` with no earlier position holding `c` (the first occurrence) |
| Luhn.ReversedIndices | sr/tools/inventory/luhn.py:58 | the index tuple of the reversed number: it succeeds exactly when every symbol is in the alphabet, has the number's length, and on failure names the rightmost symbol missing from the alphabet |
| Luhn.ReversedIndicesEntry | sr/tools/inventory/luhn.py:58 | entry `k` of the index tuple is below N and is the first-occurrence index of the symbol `k` places from the right end |
| Luhn.EvenOffsets | sr/tools/inventory/luhn.py:59 | `s[::2]`: length `ceil(len/2)`, entry `i` is `s[2i]` |
| Luhn.OddOffsets | sr/tools/inventory/luhn.py:60 | `s[1::2]`: length `floor(len/2)`, entry `i` is `s[2i+1]` |
| Residues.DivMod | sr/tools/inventory/luhn.py:60 | `divmod(x, n)`: the remainder is below `n`, and the quotient is 0 exactly when `x < n` |
| Residues.DivModRebuilds | sr/tools/inventory/luhn.py:60 | quotient and remainder rebuild the dividend: `n*q + r == x` |
| Residues.DivModIsDivision | sr/tools/inventory/luhn.py:60 | `divmod(x, n)` equals `(x / n, x % n)`, floor division and remainder on naturals |
| Luhn.DoubledValueBounds | sr/tools/inventory/luhn.py:60 | for an index `v < N`, `sum(divmod(2v, N))` is `2v` when `2v < N` and `2v - N + 1` otherwise, and stays below N |
| Luhn.SlicedTotalIsPositional | sr/tools/inventory/luhn.py:59-60 | the source's two sliced sums equal the reference total: weight `v` at even offsets and the doubled digit sum at odd offsets |
| Luhn.Checksum | sr/tools/inventory/luhn.py:47-60 | `checksum`: succeeds exactly when every symbol is in the alphabet, the result is below N, and an error names the rightmost missing symbol |
| Luhn.ChecksumIsPositional | sr/tools/inventory/luhn.py:57-60 | on a number over the alphabet the checksum is the reference positional total modulo N |
| Luhn.RightmostMissingUnique | sr/tools/inventory/luhn.py:58 | at most one symbol is the rightmost one missing from the alphabet, so every error contract names the failing symbol exactly |
| Luhn.IsValid | sr/tools/inventory/luhn.py:63-72 | `is_valid`: succeeds exactly when every symbol is in the alphabet, is true exactly when the checksum is 0, and an error names the rightmost missing symbol |
| Luhn.CalcCheckDigit | sr/tools/inventory/luhn.py:75-86 | `calc_check_digit`: succeeds exactly when every symbol is in the alphabet, returns a symbol of the alphabet, and otherwise fails naming the rightmost missing symbol of the number (the appended `alphabet[0]` never fails) |
| Luhn.ReversedIndicesAppend | sr/tools/inventory/luhn.py:58 | appending a symbol puts its index at the front of the reversed index tuple and leaves the rest unchanged |
| Luhn.ChecksumAppend | sr/tools/inventory/luhn.py:57-60 | appending `d` gives the checksum of the reference total with `d`'s index at offset 0; that total is `d`'s index plus the old indices, each moved to the opposite parity |
| Luhn.CheckDigitPosition | sr/tools/inventory/luhn.py:85-86 | the check digit is `alphabet[0]` when the padded checksum `ck` is 0 (Python's `alphabet[-0]`) and `alphabet[N - ck]` otherwise |
| Luhn.CheckDigitClosure | sr/tools/inventory/luhn.py:24-26 | for a distinct-symbol alphabet, a number with its check digit appended is valid |
| Luhn.CheckDigitIsUnique | sr/tools/inventory/luhn.py:75-86 | for a distinct-symbol alphabet, a symbol `d` makes `number + d` valid exactly when `d` is the check digit |
| Luhn.CheckDigitZeroCase | sr/tools/inventory/luhn.py:85-86 | for a distinct-symbol alphabet, the check digit is `alphabet[0]` exactly when the number with `alphabet[0]` appended is already valid |
| Luhn.IndexOfDistinct | sr/tools/inventory/luhn.py:58 | in a distinct-symbol alphabet, `index` of the symbol at position `j` is `j` |
| Luhn.PositionalTotalUpdate | sr/tools/inventory/luhn.py:59-60 | changing one index changes the total by the difference of that offset's weights |
| Luhn.WeightInjective | sr/tools/inventory/luhn.py:59-60 | for even N, two different indices have different weights at the same offset, both below N |
| Luhn.SingleSubstitutionDetected | sr/tools/inventory/luhn.py:47-60 | for even N, replacing one symbol of a number over the alphabet by a different symbol changes the checksum |
| Residues.CompletionUnique | sr/tools/inventory/luhn.py:86 | two amounts below N that complete the same total to a multiple of N are equal |
| Residues.ComplementCompletes | sr/tools/inventory/luhn.py:85-86 | the position read by `alphabet[-ck]`, added to a total with residue `ck`, gives a multiple of N |
| Residues.ExchangeChangesResidue | sr/tools/inventory/luhn.py:60 | exchanging one amount below N for a different one changes the residue modulo N |
| LuhnExamples.DecimalChecksum | sr/tools/inventory/luhn.py:28-31 | `checksum('7894')` is 6 and `is_valid('7894')` is False |
| LuhnExamples.DecimalCheckDigit | sr/tools/inventory/luhn.py:32-33 | `calc_check_digit('7894')` is `'9'` |
| LuhnExamples.DecimalValid | sr/tools/inventory/luhn.py:34-35 | `is_valid('78949')` is True |
| LuhnExamples.HexChecksum | sr/tools/inventory/luhn.py:40-43 | over `'0123456789abcdef'`, `checksum('1234')` is 14 and `is_valid('1234')` is False |
| LuhnExamples.ZeroCheckDigit | sr/tools/inventory/luhn.py:85-86 | a padded checksum of 0 gives `alphabet[-0]`: the check digit of `'0'` is `'0'` |
| LuhnExamples.ForeignSymbol | sr/tools/inventory/luhn.py:58 | `'1x2y'` fails in all three operations, naming `'y'`, the rightmost foreign symbol |
| LuhnExamples.OddAlphabetMissesSubstitution | sr/tools/inventory/luhn.py:60 | over the three symbols `'012'`, `'10'` and `'20'` have the same checksum 2, so single-substitution detection needs an even N |
| LuhnExamples.RepeatedSymbolCheckDigit | sr/tools/inventory/luhn.py:85-86 | over `'abb'`, the check digit of `'ba'` is `'b'` (read at position 2) |
| LuhnExamples.RepeatedSymbolBreaksClosure | sr/tools/inventory/luhn.py:58 | over `'abb'`, `'bab'` is not valid: with a repeated symbol the check digit need not complete the number |

## Left out

- The `str(number)` coercion (lines 58 and 85) is left out. Numbers are
  symbol strings; an integer argument is assumed to be already rendered.
- Python's exception types are not modelled. A symbol missing from the
  alphabet (`ValueError`) becomes `Err(SymbolNotInAlphabet(c))`.
- The empty alphabet is excluded by `requires |alphabet| >= 1` on `Checksum`,
  `IsValid` and `CalcCheckDigit`. There the source fails in ways the library
  does not handle: `ValueError` from `index`, `ZeroDivisionError` from `% 0`,
  and `IndexError` from `alphabet[0]`. Alphabets of one symbol are modelled
  as the code runs them: every checksum is 0.
- The source does not check that alphabet symbols are distinct. The model
  takes distinctness only as a hypothesis of the closure and uniqueness
  lemmas. `LuhnExamples.RepeatedSymbolBreaksClosure` shows that closure fails
  without it.
- Default arguments are not modelled: the decimal alphabet is the constant
  `Decimal`, passed explicitly.
- Code outside `luhn.py` is not part of this model.
