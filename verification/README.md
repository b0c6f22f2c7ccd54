# CSV file iterator — a Dafny model

This project models `CsvIterator`, the PHP class that gives `foreach` access to the rows of a
CSV file by implementing PHP's built-in `Iterator` interface. Its state is:

- a file handle, which is open or closed;
- a row counter, which is `null` until the first `rewind` or `next`;
- a current element, which is `null` (nothing loaded yet), a parsed row, or `false` (the end-marker
  the row reader returns at end of data).

The model uses three modules:

- `CsvIterator` (`csv_iterator.dfy`) holds the immutable state record `Reader` and one pure
  transition function for each operation: construction (`Open`), `Rewind`, `Current`, `Key`,
  `Next` and `Valid`. `Valid` returns both its answer and the state after the call, because the
  PHP class closes the handle inside `valid()`. The file is a sequence of already-parsed rows plus a
  read position. One call of the row reader (`ReadRow`) returns the row at that position and
  advances it, or returns the end-marker at end of data.
- `IteratorLaws` (`iterator_laws.dfy`) runs arbitrary sequences of calls (`Run`) and states laws
  relating several calls. Reachable states stay well-formed. A closed handle is final and never
  reopened. `valid` is idempotent. `rewind` forgets the position reached.
- `ForeachDriver` (`foreach_driver.dfy`) models the `foreach` protocol: rewind, then while `valid`
  read `key` and `current` and call `next`. It proves that N rows yield (0, row 0) … (N-1, row N-1)
  and that the loop ends with the handle closed and the key at N.

`next` increments the row counter on every call while the handle is open, including the call that
loads the end-marker (index.php:110-113). After a full iteration `key()` is therefore N, and once
the end-marker is loaded the `Rewound` invariant only bounds the counter from below.

## Model

| member | source | states |
|---|---|---|
| CsvIterator.Open | PHP/src/RefactoringGuru/Iterator/RealWorld/index.php:32-72 | A freshly constructed iterator has an open handle, is well-formed, reports the empty row as current, and answers `valid` with true without changing state |
| CsvIterator.Rewind | PHP/src/RefactoringGuru/Iterator/RealWorld/index.php:77-83 | On an open handle, rewind sets the key to 0 and loads the first row at read position 1, or the end-marker exactly when the file has no rows; the result satisfies the post-rewind invariant |
| CsvIterator.Current | PHP/src/RefactoringGuru/Iterator/RealWorld/index.php:90-93 | current returns the loaded row unchanged, and the empty row both before any row is loaded and on the end-marker |
| CsvIterator.Key | PHP/src/RefactoringGuru/Iterator/RealWorld/index.php:95-103 | key is the current row number: after a rewind, while a row is loaded it is the index of the row just read (one less than the read position), so it indexes the file and the row at that index is exactly current; once the end-marker is loaded it is at least the number of rows |
| CsvIterator.Next | PHP/src/RefactoringGuru/Iterator/RealWorld/index.php:108-114 | On an open handle next loads the row at the read position (or the end-marker at end of data) and increments the counter by one, a null counter becoming 1; on a closed handle it changes nothing; it preserves both invariants |
| CsvIterator.Valid | PHP/src/RefactoringGuru/Iterator/RealWorld/index.php:121-132 | On the end-marker valid answers false and leaves the handle closed, changing nothing else; otherwise it answers exactly whether the handle is open and changes nothing |
| IteratorLaws.RunPreservesWellFormed | PHP/src/RefactoringGuru/Iterator/RealWorld/index.php:77-132 | Every state reached by defined calls from a well-formed one is well-formed (in particular, a closed handle always holds the end-marker) and reads the same file |
| IteratorLaws.ClosedReaderIsFrozen | PHP/src/RefactoringGuru/Iterator/RealWorld/index.php:108-132 | On a closed handle any sequence of defined calls leaves the state exactly as it was (that it contains no rewind is a consequence of treating a rewind of a closed handle as undefined) |
| IteratorLaws.NeverReopens | PHP/src/RefactoringGuru/Iterator/RealWorld/index.php:121-129 | Once a prefix of calls has closed the handle, every longer defined run ends in that same closed state |
| IteratorLaws.ValidPositionIsRowAtKey | PHP/src/RefactoringGuru/Iterator/RealWorld/index.php:90-132 | After a rewind, whenever valid answers true the handle is open, a row is loaded, the key indexes the file, and current is exactly the row at index key |
| IteratorLaws.ValidIsIdempotent | PHP/src/RefactoringGuru/Iterator/RealWorld/index.php:121-129 | A second valid gives the same answer and state as the first; on the end-marker both answer false and the handle stays closed |
| IteratorLaws.RewindForgetsPosition | PHP/src/RefactoringGuru/Iterator/RealWorld/index.php:77-83 | Rewinding an open iterator at any position gives the same state as rewinding a fresh one over the same file, rewinding twice equals rewinding once, and the key is 0 |
| IteratorLaws.FreshReader | PHP/src/RefactoringGuru/Iterator/RealWorld/index.php:90-114 | Before any rewind current is empty and valid is true, and a next loads the first row with the null counter incremented to 1 |
| ForeachDriver.Drive | PHP/src/RefactoringGuru/Iterator/RealWorld/index.php:140-142 | The foreach loop from a rewound state terminates in a rewound state over the same file where valid answers false and a further valid changes nothing |
| ForeachDriver.DriveYieldsRemainingRows | PHP/src/RefactoringGuru/Iterator/RealWorld/index.php:108-132 | From an open rewound state with key k, where k is N whenever the end-marker is loaded, the loop yields exactly the pairs (k, row k) through (N-1, row N-1) in order and ends with the handle closed and the key at N |
| ForeachDriver.ForeachYieldsEveryRow | PHP/src/RefactoringGuru/Iterator/RealWorld/index.php:138-142 | foreach over a file of N rows yields exactly N pairs, the i-th being (i, row i), and ends with the handle closed, the key at N, and a further valid still false without reopening |

## Left out

- CSV parsing by the row reader (delimiter splitting, quoting, escaping, the 4096-byte `ROW_SIZE` line limit) is a PHP library routine; the file is given as its sequence of parsed rows, and the stored delimiter is therefore not part of the state.
- Real file I/O (opening, repositioning and closing the stream) is represented by the `open` flag and the read position.
- The constructor's failure path: whether a failed open reaches the `catch` depends on PHP's runtime error configuration, not on this code, so construction always yields an open handle.
- CsvIterator.Rewind: requires an open handle. Rewinding a handle that `valid` has closed first resets the counter to 0 (index.php:79), and only then does repositioning the closed stream (index.php:80) fail. PHP 8 throws a TypeError there; PHP 7 issues a warning, after which the row read returns false. Neither outcome is modelled, and in call sequences such a rewind makes the run undefined.
- CsvIterator.Key: requires a counter. Before any rewind or next the counter is null, and returning null from a function declared to return `int` throws a TypeError in both weak and strict mode. That error is not modelled, and in call sequences such a call makes the run undefined.
- The client script's `print_r` output is left out; only the shape of its `foreach` loop is modelled.
- The counter is an unbounded natural number. PHP's `++` (index.php:112) would turn it into a float past `PHP_INT_MAX`, which no real file reaches.
- An I/O error while reading a row is not distinguished from end of data, as in the PHP class, where both give the end-marker.
