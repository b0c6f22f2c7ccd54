/**
 Laws of the CSV iterator that relate several calls: what `current` and `key`
 report after a rewind, idempotence of `valid` and `rewind`, and the fact that
 a closed handle is never reopened by any sequence of calls.
 */
module IteratorLaws {
  import opened CsvIterator

  datatype Option<T> = None | Some(value: T)

  /** The calls a client can make on a constructed iterator. */
  datatype Call = RewindCall | CurrentCall | KeyCall | NextCall | ValidCall

  /** The state after one call, or None when the call has no defined
      behaviour: rewinding a closed handle, or asking for the key while the
      counter is still null. */
  function Step(s: Reader, c: Call): Option<Reader>
  {
    match c
    case RewindCall => if s.open then Some(Rewind(s)) else None
    case CurrentCall => Some(s)
    case KeyCall => if s.counter.Count? then Some(s) else None
    case NextCall => Some(Next(s))
    case ValidCall => Some(Valid(s).1)
  }

  /** The state after a sequence of calls, or None if one of them is undefined. */
  function Run(s: Reader, calls: seq<Call>): Option<Reader>
    decreases |calls|
  {
    if |calls| == 0 then Some(s)
    else
      match Step(s, calls[0])
      case None => None
      case Some(t) => Run(t, calls[1..])
  }

  /** Running two call sequences one after the other is running their
      concatenation. */
  lemma {:induction false} RunAppend(s: Reader, a: seq<Call>, b: seq<Call>)
    ensures Run(s, a + b) == (match Run(s, a) case None => None case Some(t) => Run(t, b))
    decreases |a|
  {
    if |a| > 0 {
      assert (a + b)[0] == a[0];
      assert (a + b)[1..] == a[1..] + b;
      match Step(s, a[0])
      case None =>
      case Some(t) => RunAppend(t, a[1..], b);
    } else {
      assert a + b == b;
    }
  }

  /** Every state reachable from a well-formed one by defined calls is
      well-formed; in particular every state reachable from construction. */
  lemma {:induction false} RunPreservesWellFormed(s: Reader, calls: seq<Call>)
    requires WellFormed(s)
    requires Run(s, calls).Some?
    ensures WellFormed(Run(s, calls).value)
    ensures Run(s, calls).value.rows == s.rows
    decreases |calls|
  {
    if |calls| > 0 {
      RunPreservesWellFormed(Step(s, calls[0]).value, calls[1..]);
    }
  }

  /** On a closed handle no call changes anything: the state is final. That
      a defined run on a closed handle contains no rewind follows from `Step`
      treating a rewind of a closed handle as undefined, not from the PHP
      class, which would attempt it and fail. */
  lemma {:induction false} ClosedReaderIsFrozen(s: Reader, calls: seq<Call>)
    requires !s.open
    requires Run(s, calls).Some?
    ensures Run(s, calls) == Some(s)
    ensures RewindCall !in calls
    decreases |calls|
  {
    if |calls| > 0 {
      assert Step(s, calls[0]) == Some(s);
      ClosedReaderIsFrozen(s, calls[1..]);
      assert calls == [calls[0]] + calls[1..];
    }
  }

  /** Once some prefix of calls has closed the handle, no further calls
      reopen it: every longer run ends in the same closed state. */
  lemma NeverReopens(s: Reader, a: seq<Call>, b: seq<Call>)
    requires Run(s, a).Some? && !Run(s, a).value.open
    requires Run(s, a + b).Some?
    ensures Run(s, a + b) == Run(s, a)
    ensures !Run(s, a + b).value.open
  {
    RunAppend(s, a, b);
    ClosedReaderIsFrozen(Run(s, a).value, b);
  }

  /** After a rewind, a valid position is a loaded row whose index is the key:
      `current` is exactly row `key` of the file. */
  lemma ValidPositionIsRowAtKey(s: Reader)
    requires Rewound(s)
    requires Valid(s).0
    ensures s.open && s.current.Loaded?
    ensures Key(s) < |s.rows| && Current(s) == s.rows[Key(s)]
  {
  }

  /** On the end-marker `valid` answers false and closes the handle, and a
      second call answers false again and changes nothing more. */
  lemma ValidIsIdempotent(s: Reader)
    ensures Valid(Valid(s).1) == Valid(s)
    ensures s.current.EndMarker? ==> !Valid(s).0 && !Valid(Valid(s).1).1.open
  {
  }

  /** Rewinding mid-iteration does not depend on the position reached: it
      gives the same state as rewinding a freshly constructed iterator over
      the same file, and rewinding twice is rewinding once. */
  lemma RewindForgetsPosition(s: Reader)
    requires s.open
    ensures Rewind(s) == Rewind(Open(s.rows))
    ensures Rewind(Rewind(s)) == Rewind(s)
    ensures Key(Rewind(s)) == 0
  {
  }

  /** Before any rewind, `current` is the empty row, `valid` is true, and a
      `next` loads the first row with the counter incremented from null to 1. */
  lemma FreshReader(rows: seq<Row>)
    ensures Current(Open(rows)) == []
    ensures Valid(Open(rows)).0
    ensures |rows| > 0 ==> Current(Next(Open(rows))) == rows[0] && Key(Next(Open(rows))) == 1
  {
  }
}
