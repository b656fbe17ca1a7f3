# Mastermind round scorer in Dafny

This project models the scorer of one round of the game of Mastermind
(`mastermind.py`). A secret code and a guess are sequences of digits in
[1, 9]. The scorer answers with a pair (strong, weak):

- strong is the number of positions where secret and guess hold the same digit;
- weak is the number of distinct digit values that occur in the guess at a
  non-strong position and also occur in the secret at a non-strong position.

The weak count is a set intersection over digit values. It is not the classic
Mastermind rule where each secret peg backs at most one weak match, and the
model keeps it that way: `[2,2,3,3]` against `[3,3,2,2]` scores (0, 2), not (0, 4).
Before scoring, both sequences are range-checked and their lengths compared.
If either check fails, the answer is the default (0, 0).

Everything is in one module, `Mastermind` (`mastermind.dfy`):

- `Score` is the answer pair.
- `Pair(secret, guess)` is one position of a round. It stands for the source's
  2-tuples read through the `SECRET_IDX` and `GUESS_IDX` constants.
- `IsValidRange`, `IsInvalid`, `Zip`, `ConvertToBinary`, `GetStrongCount`,
  `Mismatched` and `Solve` are functions, as their source counterparts are
  expressions and comprehensions.
- `GetWeakCount` is a method. Its loop fills the two value lists the way the
  source does. It is proved equal to the pure set definition `WeakCount`, and
  `Solve` uses that definition because a function cannot call a method.
- `SolveRound` is the scorer assembled from the method. It is proved equal to `Solve`.

`Solve` is a Dafny function, so calling it twice on the same inputs gives the
same result by construction. No separate idempotence lemma is needed.

## Model

| member | source | states |
|---|---|---|
| `Mastermind.IsValidRange` | mastermind.py:112-122 | checking every distinct value is the same as checking every entry: true exactly when each entry lies in [1, 9] |
| `Mastermind.IsInvalid` | mastermind.py:98-109 | true exactly when some entry lies outside [1, 9] (range part only) |
| `Mastermind.Zip` | mastermind.py:47 | the pairing has the length of the shorter input, and pair i holds secret[i] and guess[i] |
| `Mastermind.ConvertToBinary` | mastermind.py:62-69 | the result is 0 or 1, and it is 1 exactly when the difference is 0 |
| `Mastermind.GetStrongCount` | mastermind.py:51-59 | the strong count never exceeds the number of pairs |
| `Mastermind.StrongCountIsMatchCount` | mastermind.py:51-59 | the summed 0/1 contributions equal the number of indices whose pair agrees |
| `Mastermind.StrongCountFullIff` | mastermind.py:59 | the strong count equals the number of pairs if and only if every pair agrees |
| `Mastermind.StrongCountOfZip` | mastermind.py:47-59 | on zipped equal-length inputs, strong is the number of agreeing positions, and strong equals the length iff secret == guess |
| `Mastermind.Mismatched` | mastermind.py:80-82 | the filter keeps exactly the pairs whose two digits differ, and is no longer than its input |
| `Mastermind.GetWeakCount` | mastermind.py:72-95 | the list-building loop and the count over set(guess_values) of digits in set(secret_values) give WeakCount; its requires is exactly the case where no counted digit is 0, so that d/d never divides by zero |
| `Mastermind.WeakDigitsOfZip` | mastermind.py:80-95 | the counted values are the intersection of the guess-digit set and the secret-digit set, both taken over the positions where secret and guess differ |
| `Mastermind.MismatchedLength` | mastermind.py:80-82 | each pair is either counted as strong or kept by the filter: filtered length + strong == number of pairs |
| `Mastermind.GuessDigitsBound` | mastermind.py:84-93 | a sequence of pairs has no more distinct guess digits than pairs |
| `Mastermind.WeakBound` | mastermind.py:80-95 | weak is at most the number of mismatched pairs, so strong + weak never exceeds the number of pairs |
| `Mastermind.NoWeakWhenAllMatch` | mastermind.py:80-82 | when every pair agrees nothing survives the filter and weak is 0 |
| `Mastermind.Solve` | mastermind.py:33-48 | invalid or unequal-length input gives (0, 0); strong + weak never exceeds the secret's length; on valid input strong is the number of agreeing positions and weak is the size of the intersection of the mismatched value sets; strong equals the length iff secret == guess, and then weak is 0 |
| `Mastermind.ScorableHasNoZeroWeakDigit` | mastermind.py:90-95 | on validated input no counted digit is 0, so the weak-count precondition holds |
| `Mastermind.SolveRound` | mastermind.py:43-48 | validating, zipping and running the weak-count loop gives exactly Solve's score |
| `Mastermind.DocumentedRound` | mastermind.py:5-11 | secret 1,7,9,3,7 and guess 2,7,3,3,1 score (2, 1) |
| `Mastermind.RepeatedValuesCountOnce` | mastermind.py:90-95 | [2,2,3,3] against [3,3,2,2] scores (0, 2): each shared value counts once |
| `Mastermind.ReversedRound` | mastermind.py:80-95 | [1,2,3,4] against [4,3,2,1] scores (0, 4) |
| `Mastermind.ExactRounds` | mastermind.py:47-59 | a guess equal to the secret scores (4, 0) for four digits, repeated digits included |
| `Mastermind.InvalidRounds` | mastermind.py:43-45 | a length mismatch, a digit 0 and a digit 10 each give (0, 0) |

## Left out

- `is_list_of_int` (mastermind.py:125-134): a runtime type check. Typing the inputs as `seq<int>` makes it always true, so `IsInvalid` keeps only the range check.
- `convert_to_list_of_ints` (mastermind.py:137-142): command-line string splitting and integer parsing, which depend on Python library behaviour.
- `main` and the `__main__` block (mastermind.py:145-177): argument parsing, `SystemExit` handling and printing are I/O.
- The float arithmetic of `digit/digit` and the `int(...)` conversion (mastermind.py:90-95). Each counted digit adds exactly 1.0, so the model counts the values instead. The only case this changes is a counted digit 0, where the source raises; `GetWeakCount` excludes that case by its precondition, and validation rules it out for `Solve`.
