/**
 The foreach protocol over the CSV iterator: rewind, then while `valid` holds
 read `key` and `current` and call `next`. Over a file of N rows it yields the
 pairs (0, row 0) ... (N-1, row N-1) in order and leaves the handle closed
 with the key at N.
 */
module ForeachDriver {
  import opened CsvIterator

  /** One yielded pair: the key and the row. */
  type Pair = (nat, Row)

  /** A measure that every loop round of the protocol decreases. */
  function Remaining(s: Reader): nat
  {
    (if s.cursor <= |s.rows| then |s.rows| - s.cursor else 0)
    + (if s.current.Loaded? then 1 else 0)
    + (if s.open then 1 else 0)
  }

  /** The loop of the protocol from a rewound state: the pairs it yields and
      the state it stops in, where `valid` is false. */
  function Drive(s: Reader): (out: (seq<Pair>, Reader))
    requires Rewound(s)
    ensures Rewound(out.1) && out.1.rows == s.rows
    ensures !Valid(out.1).0 && Valid(out.1).1 == out.1
    decreases Remaining(s)
  {
    var (ok, s1) := Valid(s);
    if !ok then
      ([], s1)
    else
      var (rest, last) := Drive(Next(s1));
      ([(Key(s1), Current(s1))] + rest, last)
  }

  /** The whole protocol over a freshly constructed iterator. */
  function Foreach(rows: seq<Row>): (seq<Pair>, Reader)
  {
    Drive(Rewind(Open(rows)))
  }

  /** From an open rewound state whose key is k, the loop yields the pairs
      (k, row k) ... (N-1, row N-1) and ends closed with the key at N. */
  lemma {:induction false} DriveYieldsRemainingRows(s: Reader)
    requires Rewound(s) && s.open
    requires s.current.EndMarker? ==> Key(s) == |s.rows|
    ensures Key(s) <= |s.rows|
    ensures Drive(s).0 == seq(|s.rows| - Key(s), i requires 0 <= i < |s.rows| - Key(s) =>
                                (Key(s) + i, s.rows[Key(s) + i]))
    ensures !Drive(s).1.open && Key(Drive(s).1) == |s.rows|
    decreases Remaining(s)
  {
    var k := Key(s);
    if !s.current.EndMarker? {
      var t := Next(s);
      DriveYieldsRemainingRows(t);
      var rest := Drive(t).0;
      assert Drive(s).0 == [(k, s.rows[k])] + rest;
      assert |Drive(s).0| == |s.rows| - k;
      forall i | 0 <= i < |s.rows| - k
        ensures Drive(s).0[i] == (k + i, s.rows[k + i])
      {
        if i > 0 {
          assert Drive(s).0[i] == rest[i - 1];
        }
      }
    }
  }

  /** Over N rows the protocol yields exactly N pairs, the i-th being
      (i, row i), and leaves the handle closed with the key at N; a further
      `valid` still answers false without reopening. */
  lemma ForeachYieldsEveryRow(rows: seq<Row>)
    ensures |Foreach(rows).0| == |rows|
    ensures forall i :: 0 <= i < |rows| ==> Foreach(rows).0[i] == (i, rows[i])
    ensures !Foreach(rows).1.open && Key(Foreach(rows).1) == |rows|
    ensures !Valid(Foreach(rows).1).0 && !Valid(Foreach(rows).1).1.open
  {
    DriveYieldsRemainingRows(Rewind(Open(rows)));
  }
}
