/**
 A model of the CSV file iterator: a forward-only reader over a delimited text
 file that implements the five operations of PHP's iteration protocol
 (rewind, current, key, next, valid).

 The file is represented by the rows it parses into, already split into fields,
 together with a read position. Reading one row (what the CSV parsing routine
 does on the real file) returns the row at the read position and advances it,
 or returns the end-marker once the position has reached the end of the rows.
 The file handle is represented by an `open` flag.
 */
module CsvIterator {

  /** One parsed record: its fields in order. */
  type Row = seq<string>

  /** What the iterator holds as its current element: nothing loaded yet
      (the initial null), a parsed row, or the end-marker (the `false` the
      row reader returns at end of data). */
  datatype Element = Unloaded | Loaded(row: Row) | EndMarker

  /** The row counter: absent (null) until the first rewind or next. */
  datatype Counter = NoCount | Count(n: nat)

  /** The whole iterator state. `rows` and `cursor` stand for the file and its
      read position; `open` for "the handle is still a live resource". */
  datatype Reader = Reader(
    rows: seq<Row>,
    cursor: nat,
    open: bool,
    counter: Counter,
    current: Element)

  /** A property every state reachable from construction has (it also
      admits some unreachable states): the read position stays inside the
      file, a loaded row is the one just read, the end-marker sits at end of
      data, the counter is absent exactly while nothing has been loaded, and
      the handle is only ever closed after the end-marker has been seen. */
  predicate WellFormed(s: Reader) {
    && s.cursor <= |s.rows|
    && (s.current.Unloaded? <==> s.counter.NoCount?)
    && (s.current.Unloaded? ==> s.cursor == 0)
    && (s.current.Loaded? ==> 0 < s.cursor && s.rows[s.cursor - 1] == s.current.row)
    && (s.current.EndMarker? ==> s.cursor == |s.rows|)
    && (!s.open ==> s.current.EndMarker?)
  }

  /** The states reached after a rewind: in addition, the counter is the
      0-based index of the loaded row, and once the end-marker is loaded the
      counter has reached (or passed) the number of rows. */
  predicate Rewound(s: Reader) {
    && WellFormed(s)
    && s.counter.Count?
    && (s.current.Loaded? ==> s.cursor == s.counter.n + 1)
    && (s.current.EndMarker? ==> s.counter.n >= |s.rows|)
  }

  /** One call of the row reader at read position `cursor`: the row there and
      the position after it, or the end-marker and an unmoved position. */
  function ReadRow(rows: seq<Row>, cursor: nat): (Element, nat)
  {
    if cursor < |rows| then (Loaded(rows[cursor]), cursor + 1) else (EndMarker, cursor)
  }

  /** Incrementing the row counter; incrementing the absent (null) counter
      yields 1. */
  function Succ(c: Counter): nat
  {
    match c
    case NoCount => 1
    case Count(n) => n + 1
  }

  /** Construction: the file is opened for reading; nothing is loaded and
      the counter is absent. The failure path is not modelled. */
  function Open(rows: seq<Row>): (r: Reader)
    ensures WellFormed(r) && r.rows == rows
    ensures r.open && r.cursor == 0
    ensures Current(r) == []
    ensures Valid(r) == (true, r)
  {
    Reader(rows, 0, true, NoCount, Unloaded)
  }

  /** `rewind`: counter to 0, read position to the start of the file, and the
      first row (or the end-marker for a file without rows) loaded. Rewinding
      a closed handle is a runtime error in the PHP class, hence the requires. */
  function Rewind(s: Reader): (r: Reader)
    requires s.open
    ensures r.rows == s.rows && r.open
    ensures r.counter == Count(0)
    ensures Rewound(r)
    ensures |s.rows| == 0 <==> r.current == EndMarker
    ensures |s.rows| > 0 ==> r.current == Loaded(s.rows[0]) && r.cursor == 1
  {
    var (e, c) := ReadRow(s.rows, 0);
    s.(cursor := c, counter := Count(0), current := e)
  }

  /** `current`: the loaded row, or the empty row when nothing is loaded or
      the end-marker is. */
  function Current(s: Reader): (r: Row)
    ensures s.current.Loaded? ==> r == s.current.row
    ensures !s.current.Loaded? ==> r == []
  {
    match s.current
    case Loaded(row) => row
    case Unloaded => []
    case EndMarker => []
  }

  /** `key`: the current row number. After a rewind it is the 0-based index
      of the loaded row (the row just read, one before the read position,
      so it is fixed even when the file repeats a row), and once the end-marker is loaded it is at least the
      number of rows. Before any rewind or next the counter is null, which
      `key()`'s `int` return type does not admit. */
  function Key(s: Reader): (r: nat)
    requires s.counter.Count?
    ensures Rewound(s) && s.current.Loaded? ==> r + 1 == s.cursor
    ensures Rewound(s) && s.current.Loaded? ==> r < |s.rows| && s.rows[r] == Current(s)
    ensures Rewound(s) && s.current.EndMarker? ==> |s.rows| <= r
  {
    s.counter.n
  }

  /** `next`: while the handle is open, read the following row (or the
      end-marker) and increment the counter; on a closed handle, nothing. */
  function Next(s: Reader): (r: Reader)
    ensures !s.open ==> r == s
    ensures s.open ==> r.rows == s.rows && r.open && r.counter == Count(Succ(s.counter))
    ensures s.open && s.cursor < |s.rows| ==>
              r.current == Loaded(s.rows[s.cursor]) && r.cursor == s.cursor + 1
    ensures s.open && |s.rows| <= s.cursor ==> r.current == EndMarker && r.cursor == s.cursor
    ensures WellFormed(s) ==> WellFormed(r)
    ensures Rewound(s) ==> Rewound(r)
  {
    if s.open then
      var (e, c) := ReadRow(s.rows, s.cursor);
      s.(cursor := c, counter := Count(Succ(s.counter)), current := e)
    else
      s
  }

  /** `valid`: on the end-marker, close the handle if it is still open and
      answer false; otherwise answer whether the handle is open, changing
      nothing. The answer comes with the state after the call. */
  function Valid(s: Reader): (res: (bool, Reader))
    ensures s.current.EndMarker? ==> !res.0 && !res.1.open && res.1 == s.(open := false)
    ensures !s.current.EndMarker? ==> res.0 == s.open && res.1 == s
    ensures WellFormed(s) ==> WellFormed(res.1)
    ensures Rewound(s) ==> Rewound(res.1)
  {
    if s.current.EndMarker? then
      (false, s.(open := false))
    else
      (s.open, s)
  }
}
