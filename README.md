# Israeli ID checksum and forward search, in Dafny

A model of a small Python program that validates 9-digit identification numbers
(the Luhn-style check used for Israeli Teudat Zehut numbers) and walks forward
through the valid ones in two ways: a resumable iterator class `IDIterator` and a
generator `id_generator`.

- `checksum.dfy`, module `IdChecksum`: `check_id_valid` as `CheckIdValid`. It keeps
  the source's own pipeline: `str(n)` as `IntToString`, the length and `isnumeric`
  test, the list with even positions doubled (`Multiplied`), the list with two-digit
  values replaced by their digit sum (`Reduced`), and `sum` (`Sum`). Beside it is a
  reference definition over decimal digits (`Digits`, `Term`, `Total`). The lemmas
  prove that the two agree, that the function raises exactly outside
  100000000..999999999, and that each run of ten IDs sharing the first eight digits
  holds exactly one valid ID.
- `search.dfy`, module `IdSearch`:
  - `IdIterator` is a class whose one field `id` is the cursor. `Next` is
    `__next__`, a `while true` loop proved against `Scan`, the search one call
    performs.
  - `IdGenerator` is `id_generator` pulled to its end. It is a bounded loop that
    appends to a sequence, proved against `ValidFrom`, the list of valid IDs from the
    start.
  - `Iterate` is the result of K successive `__next__` calls. The lemmas prove that
    it agrees with the generator for as long as the generator yields.

Integers are unbounded, as in Python. The only exception is `ValueError`, written
`Err(ValueError)` (or `Raised(ValueError)` at the end of a generator run).

Where the documentation and the code disagree, the model follows the code:

- `__next__`'s docstring promises `StopIteration` when no valid ID is left. The code
  never raises it. From cursor 999999999 it tests 999999999 (invalid) and then
  1000000000, on which `check_id_valid` raises `ValueError`. The cursor is left at
  1000000000 (`IdIterator.Next`, `ScanFailsOnlyAtTop`,
  `IteratorRaisesWhereGeneratorStops`).
- `IDIterator.__init__` stores its argument without checking it. A bad start only
  surfaces as the `ValueError` of the first `__next__` call.
- `id_generator` checks only that `len(str(start)) == 9`. A negative start such as
  -12345678 passes that test. It then fails on the first pull because
  `check_id_valid` raises. Either way no item is yielded before the `ValueError`.
- For an integer argument, leading zeros cannot occur. So the accepted domain is
  exactly 100000000..999999999.

## Model

| member | source | states |
|---|---|---|
| `IdChecksum.CheckIdValid` | Campusil_next.py_Solution.py:32-35 | raises `ValueError` exactly when the integer lies outside 100000000..999999999, i.e. when `str(n)` is not nine numeric characters |
| `IdChecksum.NatToStringLength` | Campusil_next.py_Solution.py:32-34 | `str(n)` of a non-negative `n` has at most `k` characters iff `n < 10^k` |
| `IdChecksum.IntToStringNine` | Campusil_next.py_Solution.py:32-34 | `str(n)` is nine numeric characters for every in-range `n`; a nine-character `str(n)` means `n <= 999999999`; a negative `n` never passes `isnumeric` |
| `IdChecksum.NatToStringDigits` | Campusil_next.py_Solution.py:37 | `int(digit)` over the characters of `str(n)` gives the decimal digits of `n`, most significant first |
| `IdChecksum.Term` | Campusil_next.py_Solution.py:37-38 | every per-position term lies in 0..9 and an odd position contributes its digit unchanged |
| `IdChecksum.ReducedMultipliedIsTerm` | Campusil_next.py_Solution.py:37-38 | doubling at even 1-based positions and then summing the two digits of a value of 10 or more gives `2d` when `2d < 10` and `2d - 9` otherwise |
| `IdChecksum.SumOfTerms` | Campusil_next.py_Solution.py:38 | the left-to-right `sum` of the per-position terms is the weighted total |
| `IdChecksum.VerdictIsWeightedTotal` | Campusil_next.py_Solution.py:37-39 | for a 9-digit `n` the verdict is `True` iff the weighted total of its digits is divisible by 10 |
| `IdChecksum.CheckDigit` | Campusil_next.py_Solution.py:37-39 | the check digit is a digit that brings the total of the first eight digits to a multiple of 10 |
| `IdChecksum.DecadeHasOneValid` | Campusil_next.py_Solution.py:37-39 | among the ten IDs sharing the first eight digits, the one ending in `c` is valid iff `c` is the check digit, so exactly one is valid |
| `IdChecksum.LastValidId` | Campusil_next.py_Solution.py:37-39 | 999999998 is valid and 999999999 is not |
| `IdSearch.ScanFindsLeastValid` | Campusil_next.py_Solution.py:110-116 | a successful scan from cursor `c` returns a valid ID `m >= c` with no valid ID in `[c, m)`, and `c` is in range |
| `IdSearch.LeastValidIsScanned` | Campusil_next.py_Solution.py:110-116 | conversely, the least valid ID at or after an in-range cursor is what the scan returns |
| `IdSearch.ScanFailsIffNoneLeft` | Campusil_next.py_Solution.py:34-35 | the scan raises iff the cursor is out of range or no valid ID lies in `[c, 999999999]` |
| `IdSearch.ScanFailsOnlyAtTop` | Campusil_next.py_Solution.py:110-116 | from an in-range cursor the scan raises `ValueError` iff the cursor is 999999999 |
| `IdSearch.IdIterator.constructor` | Campusil_next.py_Solution.py:76 | `__init__` stores the start as the cursor, unchecked |
| `IdSearch.IdIterator.Iter` | Campusil_next.py_Solution.py:87 | `__iter__` returns the iterator itself and changes nothing |
| `IdSearch.IdIterator.Next` | Campusil_next.py_Solution.py:110-116 | returns the least valid ID `m` at or after the cursor and sets the cursor to `m + 1`; otherwise raises `ValueError`, with the cursor at 1000000000 (in-range start) or unchanged (out-of-range start); the cursor never decreases |
| `IdSearch.IterateIncreasing` | Campusil_next.py_Solution.py:110-116 | `k` successive `__next__` results are `k` valid IDs, at or after the start, strictly increasing |
| `IdSearch.ValidFromMembers` | Campusil_next.py_Solution.py:151-154 | the generator's items are exactly the valid IDs between the start and 999999999 |
| `IdSearch.ValidFromIncreasing` | Campusil_next.py_Solution.py:151-154 | the generator's items are strictly increasing, hence without duplicates |
| `IdSearch.ScanHeadsValidFrom` | Campusil_next.py_Solution.py:151-154 | the generator's next item is what one scan finds, and the rest starts one past it; a failing scan leaves nothing to yield |
| `IdSearch.IdGenerator` | Campusil_next.py_Solution.py:148-154 | on an in-range start, yields the valid IDs from the start to 999999999 and then stops; on any other start, raises `ValueError` before yielding anything |
| `IdSearch.IteratorMatchesGenerator` | Campusil_next.py_Solution.py:151-154 | for the same start, the first `k` `__next__` results equal the first `k` generator items whenever the generator yields at least `k` |
| `IdSearch.IteratorRaisesWhereGeneratorStops` | Campusil_next.py_Solution.py:110-116 | one `__next__` call past the generator's last item raises `ValueError`, not `StopIteration` |
| `IdSearch.BothFailOnBadStart` | Campusil_next.py_Solution.py:148-149 | on an out-of-range start the first `__next__` call raises `ValueError`, as the generator does |

## Left out

- `main` is not modelled. It is console I/O: it reads the start and the choice of
  `'it'` or `'gen'`, prints ten IDs, reports `ValueError` messages and turns
  `KeyboardInterrupt` into `RuntimeError`.
- Generator suspension is not modelled. `IdGenerator` computes the whole finite run
  at once, as a `Stream` of items followed by how the run ended. Laziness and
  early abandonment are therefore not captured.
- Non-integer arguments are not modelled. This covers strings with leading zeros,
  characters that `isnumeric` accepts but `int` rejects, and `bool`. The domain is
  `int` only, so `isinstance(id_number, int)` in `id_generator` always holds.
- `IsNumeric` checks for the characters '0'..'9' only. That is exact for the
  strings `str` produces from an integer, which hold only digits and a minus sign.
- `IdSearch.Iterate`: the sequence of K `__next__` calls is stated as a function on
  the cursor, not as a loop of method calls. `IdIterator.Next`'s postcondition
  (`r == Scan(old(id))` and the new cursor) is what ties the two together.
- The running time of long scans is not modelled, only their results and their
  termination.
