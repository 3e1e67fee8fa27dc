# ISBN-10 checker and check-digit fixer, in Dafny

This project models the core of the loop version of the ISBN-10 checker
(`isbn10_checker.py`). The program strips hyphens and spaces from
what the user types. It then checks that the result has ten characters and
that the first nine are digits. It then validates the ISBN-10 modulus-11
checksum of ISO 2108: position i (from 0) has weight 10 - i, the
characters `0`..`9` count at face value, `X` counts as ten, and the code is
valid when the weighted sum is a multiple of 11. When the code is invalid,
the program suggests the first nine characters followed by the correct
check digit.

Everything is in `isbn10_checker.dfy`, module `Isbn10Checker`:

- `Clean` is `clean_isbn`: two one-character deletions, the same as the two
  `str.replace` calls.
- `WeightedSum` is the weighted sum, and `Checksum` is that sum on a
  ten-symbol candidate.
- `CheckDigit` is the specification of `compute_check_digit`.
  `ComputeCheckDigit` is the loop itself, proved against it.
- `Validity` / `CodeValidity` specify `is_valid_isbn10`. `IsValidIsbn10` is
  the loop, proved against them.
- `Classify` is the validate/correct decision that the menu makes for one
  entered string. `CheckOrCorrect` computes the same decision by calling
  the two routines, as the menu does.

Python's `ValueError` is an explicit outcome: `Outcome.ValueError(c)`. It
arises when `int()` meets a tenth character that is neither a digit nor
`X`. It is never folded into true or false.

Two consequences of the code are modelled as they are:

- `clean_isbn` does not change letter case, so a lower-case `x` check symbol
  passes the gate and then makes `int('x')` raise (`LowercaseXRaises`,
  `WorkedLowercaseX`).
- The gate checks only the length and the first nine characters. A bad
  tenth character makes `int()` raise `ValueError`, and the menu does not
  catch it (`ValidityCulprit` names the character that raises).

Python's `%` floors and Dafny's `%` is Euclidean. Both agree when the
divisor is positive, and every `%` here is by 11. This also holds for the
negative weights that `compute_check_digit` uses on inputs longer than
eleven digits (digit k has weight 10 − k, so the twelfth digit is the first
with a negative weight).

## Model

| member | source | states |
|---|---|---|
| `Isbn10Checker.Delete` | isbn10_checker.py:5 | one `str.replace(x, "")`: the result contains no `x` and is no longer than the input |
| `Isbn10Checker.Clean` | isbn10_checker.py:3-5 | the cleaned string is no longer than the input and contains no `-` and no space |
| `Isbn10Checker.CleanCount` | isbn10_checker.py:3-5 | every character other than `-` and space survives cleaning, unchanged (case included) and exactly as often as in the input |
| `Isbn10Checker.CleanAppend` | isbn10_checker.py:3-5 | cleaning a concatenation is the concatenation of the cleaned parts, so surviving characters keep their original order |
| `Isbn10Checker.CleanChar` | isbn10_checker.py:5 | a single character is removed exactly when it is `-` or a space |
| `Isbn10Checker.CleanUnchanged` | isbn10_checker.py:5 | a string without `-` and spaces is left as it is |
| `Isbn10Checker.CleanIdempotent` | isbn10_checker.py:5 | cleaning twice is the same as cleaning once |
| `Isbn10Checker.Value` | isbn10_checker.py:30-33 | the value of a digit or `X` is at most 10, it is 10 exactly for `X`, and the symbol has that value's position in `0123456789X` |
| `Isbn10Checker.Symbol` | isbn10_checker.py:17 | the symbol written for a value 0..10 is a digit or `X`, has that value, and is `X` exactly for 10 |
| `Isbn10Checker.WeightedSum` | isbn10_checker.py:9-14 | the running total of value × weight (weights counting down from the first one) is never negative while every weight is nonnegative |
| `Isbn10Checker.WeightedSumUpdate` | isbn10_checker.py:26-36 | replacing the symbol at position i changes the total by the change of value times the weight 10 − i |
| `Isbn10Checker.WeightedSumSwap` | isbn10_checker.py:26-36 | swapping two adjacent symbols changes the total by exactly the difference of their values |
| `Isbn10Checker.ChecksumExplicit` | isbn10_checker.py:26-36 | `Checksum`, the loop's final `total` on a ten-symbol candidate, is 10·v0 + 9·v1 + … + 1·v9, with `X` counted as 10 |
| `Isbn10Checker.CheckDigit` | isbn10_checker.py:7-17 | the check digit is one of `0123456789X`; it is `X` exactly when (11 − sum % 11) % 11 is 10; its value added to the weighted sum gives a multiple of 11 |
| `Isbn10Checker.ComputeCheckDigit` | isbn10_checker.py:7-17 | the loop (weight = 10 − i, total = weighted sum of the digits seen so far) returns exactly `CheckDigit` of its digit-string argument |
| `Isbn10Checker.PassesFormatCheck` | isbn10_checker.py:23 | the gate's definition: the string has ten characters and its first nine form a digit string; the ensures restates this position by position, as later proofs use it |
| `Isbn10Checker.CodeValidity` | isbn10_checker.py:23-38 | on a cleaned string: raises exactly when the gate holds and the tenth character is neither a digit nor `X`, naming that character; answers true only for a ten-symbol candidate whose checksum is a multiple of 11 |
| `Isbn10Checker.Validity` | isbn10_checker.py:19-21 | `is_valid_isbn10` on the raw input; an input shorter than ten characters is answered false |
| `Isbn10Checker.ValidityCulprit` | isbn10_checker.py:21-33 | a ValueError names a character the user typed that is neither `-`, space, digit nor `X` |
| `Isbn10Checker.IsValidIsbn10` | isbn10_checker.py:19-38 | returns false when the cleaned string fails the gate (length ≠ 10 or a non-digit among the first nine), before any checksum work; raises ValueError on a gated string whose tenth character is neither a digit nor `X`; otherwise returns whether the checksum is a multiple of 11 |
| `Isbn10Checker.ValidityOfClean` | isbn10_checker.py:21 | validating a cleaned string gives the same answer as validating the original |
| `Isbn10Checker.ValidityWithoutSeparators` | isbn10_checker.py:21 | on a string without separators, validation checks the string itself |
| `Isbn10Checker.ValidityIgnoresSeparator` | isbn10_checker.py:21 | inserting a `-` or space anywhere does not change the answer |
| `Isbn10Checker.ValidityOfCandidate` | isbn10_checker.py:23-38 | nine digits plus a digit or `X` never raise, and are valid exactly when the weighted sum plus the last value is a multiple of 11 |
| `Isbn10Checker.LowercaseXRaises` | isbn10_checker.py:30-33 | nine digits followed by a lower-case `x` pass the gate and raise ValueError instead of answering |
| `Isbn10Checker.CheckDigitRoundTrip` | isbn10_checker.py:29-38 | nine digits followed by their computed check digit always validate as true |
| `Isbn10Checker.CheckDigitUnique` | isbn10_checker.py:16-17 | for nine digits and a last symbol in `0123456789X`, the result is valid exactly when that symbol is the computed check digit |
| `Isbn10Checker.DetectsSingleSubstitution` | isbn10_checker.py:26-38 | changing any one symbol of a valid candidate to a different digit or `X` always makes it invalid, whether the result still passes the gate or not; it never raises |
| `Isbn10Checker.DetectsAdjacentTransposition` | isbn10_checker.py:26-38 | swapping any two different adjacent symbols of a valid candidate always makes it invalid, whether the result still passes the gate or not (an `X` moved into position 8 fails the gate); it never raises |
| `Isbn10Checker.Classify` | isbn10_checker.py:57-69 | "invalid format" exactly when the gate fails; "valid" exactly when `is_valid_isbn10` returns true; its ValueError passes through with the same culprit character; an "invalid" verdict suggests the first nine cleaned characters plus a check digit that differs from the entered one and makes the suggestion valid |
| `Isbn10Checker.CheckOrCorrect` | isbn10_checker.py:57-69 | the menu's sequence of gate, `is_valid_isbn10` and `compute_check_digit` calls yields exactly the `Classify` verdict |
| `Isbn10Checker.WorkedValid` | isbn10_checker.py:19-38 | `0306406152` and `155404295X` are valid, with `X` worth 10 |
| `Isbn10Checker.WorkedValidHyphenated` | isbn10_checker.py:19-38 | `0-306-40615-2` is valid |
| `Isbn10Checker.WorkedCheckDigit` | isbn10_checker.py:7-17 | the check digit of `030640615` is `2` |
| `Isbn10Checker.WorkedCorrection` | isbn10_checker.py:63-69 | `0306406153` is reported invalid, with check digit `2` and correction `0306406152` |
| `Isbn10Checker.WorkedTooShort` | isbn10_checker.py:59-61 | `12345` is reported as an invalid format |
| `Isbn10Checker.WorkedLowercaseX` | isbn10_checker.py:30-33 | `155404295x` raises ValueError |

## Left out

- The menu loop and its I/O: the banner, `input`, `print`, the option
  choice and the "Invalid option" branch (isbn10_checker.py:40-56, 70-75).
  Only the decision at lines 57-69 is modelled. The texts it prints are
  represented by the `Verdict` constructors.
- In the menu, a ValueError raised by `is_valid_isbn10` propagates out of
  `main` and ends the program. The model stops at the `ValueError` outcome
  of `Classify` and does not model the termination.
- Python's Unicode notions of `str.isdigit` and `int` (non-ASCII digits,
  superscripts, which `isdigit` accepts and `int` may reject). Only ASCII
  `0`..`9` are digits here.
- Upper-casing during normalisation is left out because the code does not
  do it.
- ISBN-13, batch mode and the GUI do not appear in this program.
- `compute_check_digit` on non-digit characters is left out. There `int()`
  would raise, but its only caller passes nine digits that the gate has
  checked. `ComputeCheckDigit` therefore requires a digit string. It accepts
  any length, as the Python loop does.
